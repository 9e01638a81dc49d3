/**
 * Table-name helpers: `camel_to_snake` and `plural`.
 *
 * `camel_to_snake` is two `re.sub` passes followed by `str.lower()`:
 *   pass 1: pattern `(.)([A-Z][a-z]+)`, replacement `\1_\2`;
 *   pass 2: pattern `([a-z0-9])([A-Z])`, replacement `\1_\2`.
 * `re.sub` scans left to right; where the pattern matches it emits the
 * replacement and resumes after the match, otherwise it copies one
 * character and moves on. `.` matches any character except a line feed,
 * `[a-z]+` is greedy, and the classes `[A-Z]`, `[a-z]`, `[0-9]` are ASCII.
 */
module StringUtils {

  predicate IsUpper(c: char) { 'A' <= c <= 'Z' }
  predicate IsLower(c: char) { 'a' <= c <= 'z' }
  predicate IsDigit(c: char) { '0' <= c <= '9' }
  predicate IsLowerOrDigit(c: char) { IsLower(c) || IsDigit(c) }

  /** `str.lower()` on one character (ASCII letters only). */
  function ToLower(c: char): (r: char)
    ensures !IsUpper(r)
    ensures IsUpper(c) ==> IsLower(r) && r as int == c as int + 32
    ensures !IsUpper(c) ==> r == c
  {
    if IsUpper(c) then (c as int + 32) as char else c
  }

  /** `str.lower()` (ASCII letters only). */
  function Lower(s: string): (r: string)
    ensures |r| == |s|
    ensures forall i :: 0 <= i < |s| ==> r[i] == ToLower(s[i])
  {
    seq(|s|, i requires 0 <= i < |s| => ToLower(s[i]))
  }

  predicate NoUpper(s: string) { forall i :: 0 <= i < |s| ==> !IsUpper(s[i]) }

  /** The string with every `'_'` removed. */
  function RemoveUnderscores(s: string): string
  {
    if s == [] then [] else (if s[0] == '_' then [] else [s[0]]) + RemoveUnderscores(s[1..])
  }

  /** Length of the longest prefix of `s` made of `[a-z]` (the greedy `[a-z]+`). */
  function LowerRun(s: string): (n: nat)
    ensures n <= |s|
    ensures forall i :: 0 <= i < n ==> IsLower(s[i])
    ensures n == |s| || !IsLower(s[n])
  {
    if s != [] && IsLower(s[0]) then 1 + LowerRun(s[1..]) else 0
  }

  /**
   * Pass 1: `re.sub("(.)([A-Z][a-z]+)", r"\1_\2", s)`. It never shortens its
   * input and never puts anything before the first character.
   */
  function FirstPass(s: string): (r: string)
    ensures |r| >= |s|
    ensures s != [] ==> r != [] && r[0] == s[0]
    decreases |s|
  {
    if FirstPassMatches(s) then
      var n := 2 + LowerRun(s[2..]);
      [s[0], '_'] + (s[1..n] + FirstPass(s[n..]))
    else if s == [] then []
    else [s[0]] + FirstPass(s[1..])
  }

  /** Pass 2: `re.sub("([a-z0-9])([A-Z])", r"\1_\2", s)`; likewise. */
  function SecondPass(s: string): (r: string)
    ensures |r| >= |s|
    ensures s != [] ==> r != [] && r[0] == s[0]
    decreases |s|
  {
    if |s| >= 2 && IsLowerOrDigit(s[0]) && IsUpper(s[1]) then
      [s[0], '_', s[1]] + SecondPass(s[2..])
    else if s == [] then []
    else [s[0]] + SecondPass(s[1..])
  }

  /** `camel_to_snake(name)`. */
  function CamelToSnake(name: string): (r: string)
    ensures r == Lower(Underscored(name))
    ensures NoUpper(r)
    ensures name != [] ==> r != [] && r[0] == ToLower(name[0])
  {
    PassesAreUnderscored(name);
    Lower(SecondPass(FirstPass(name)))
  }

  /** `plural(name)`: the f-string `f"{name}s"`. */
  function Plural(name: string): (r: string)
    ensures |r| == |name| + 1
    ensures r[..|name|] == name && r[|name|] == 's'
  {
    name + "s"
  }

  // ---------------------------------------------------------------------
  // Reference definition of the two passes, one character at a time.
  // ---------------------------------------------------------------------

  /**
   * Whether an underscore goes right before `s[0]`, where `p` is the
   * character that precedes it in the input: `s[0]` is an upper-case
   * letter, and either `p` is a lower-case letter or digit (pass 2), or `p`
   * is not a line feed and `s[1]` is a lower-case letter (pass 1).
   */
  predicate BreakBefore(p: char, s: string)
    requires s != []
  {
    IsUpper(s[0]) && (IsLowerOrDigit(p) || (p != '\n' && |s| >= 2 && IsLower(s[1])))
  }

  /** `s` with its underscores inserted, given that `p` precedes it. */
  function UnderscoredAfter(p: char, s: string): (r: string)
    decreases |s|
  {
    if s == [] then []
    else (if BreakBefore(p, s) then "_" else "") + ([s[0]] + UnderscoredAfter(s[0], s[1..]))
  }

  /** `s` with its underscores inserted: never one before the first character. */
  function Underscored(s: string): (r: string)
  {
    if s == [] then [] else [s[0]] + UnderscoredAfter(s[0], s[1..])
  }

  // ---------------------------------------------------------------------
  // The scans agree with the reference.
  // ---------------------------------------------------------------------

  /** Whether pass 1 matches at the start of `s`. */
  predicate FirstPassMatches(s: string)
  {
    |s| >= 3 && s[0] != '\n' && IsUpper(s[1]) && IsLower(s[2])
  }

  /** Pass 2 copies a character that cannot start a match. */
  lemma {:induction false} SecondPassCopy(c: char, t: string)
    requires !(IsLowerOrDigit(c) && t != [] && IsUpper(t[0]))
    ensures SecondPass([c] + t) == [c] + SecondPass(t)
  {
  }

  /** Pass 1 over a match: `s[0]`, `'_'`, then `s[1..n]` and the rest scanned afresh. */
  lemma {:induction false} FirstPassOverMatch(s: string, n: nat)
    requires FirstPassMatches(s) && n == 2 + LowerRun(s[2..])
    ensures 3 <= n <= |s|
    ensures FirstPass(s) == [s[0]] + (['_'] + (s[1..n] + FirstPass(s[n..])))
  {
    var y := s[1..n] + FirstPass(s[n..]);
    assert [s[0], '_'] + y == [s[0]] + (['_'] + y);
  }

  /** The main theorem's case where pass 1 matches at the start. */
  lemma {:induction false} PassesOverMatch(s: string)
    requires FirstPassMatches(s)
    ensures SecondPass(FirstPass(s)) == Underscored(s)
    decreases |s|, 0
  {
    var n := 2 + LowerRun(s[2..]);
    FirstPassOverMatch(s, n);
    var m, rest := s[1..n], s[n..];
    var x := FirstPass(rest);
    SecondPassCopy(s[0], ['_'] + (m + x));
    SecondPassCopy('_', m + x);
    forall i | 0 < i < |m| ensures IsLower(m[i]) {
      assert m[i] == s[2..][i - 1];
    }
    PassesOverRun(m, rest);
    UnderscoredOverMatch(s, n);
  }

  /**
   * Both passes over a word `l` followed by `rest`, where every letter of `l`
   * after the first is lower case and the last one is a lower-case letter or digit.
   */
  lemma {:induction false} PassesOverRun(l: string, rest: string)
    requires l != [] && forall i :: 0 < i < |l| ==> IsLower(l[i])
    requires IsLowerOrDigit(l[|l| - 1])
    ensures SecondPass(l + FirstPass(rest)) == l + UnderscoredAfter(l[|l| - 1], rest)
    decreases |rest|, 4, |l|
  {
    var x := FirstPass(rest);
    if |l| == 1 {
      assert l + x == [l[0]] + x;
      PassesAfterLower(l[0], rest);
    } else {
      assert l + x == [l[0]] + (l[1..] + x);
      SecondPassCopy(l[0], l[1..] + x);
      PassesOverRun(l[1..], rest);
      assert l == [l[0]] + l[1..];
    }
  }

  /** The reference over a pass-1 match `s[0] s[1..n]`, followed by `rest`. */
  lemma {:induction false} UnderscoredOverMatch(s: string, n: nat)
    requires FirstPassMatches(s) && n == 2 + LowerRun(s[2..])
    ensures 3 <= n <= |s|
    ensures Underscored(s) == [s[0]] + (['_'] + (s[1..n] + UnderscoredAfter(s[n - 1], s[n..])))
  {
    var m, rest := s[1..n], s[n..];
    var t := s[1..];
    assert t[1..] == m[1..] + rest;
    forall i | 0 < i < |m| ensures IsLower(m[i]) {
      assert m[i] == s[2..][i - 1];
    }
    UnderscoredOverRun(m, rest);
  }

  /** The reference copies a word whose letters after the first are lower case. */
  lemma {:induction false} UnderscoredOverRun(l: string, rest: string)
    requires l != [] && forall i :: 0 < i < |l| ==> IsLower(l[i])
    ensures [l[0]] + UnderscoredAfter(l[0], l[1..] + rest) == l + UnderscoredAfter(l[|l| - 1], rest)
    decreases |l|
  {
    if |l| == 1 {
      assert l[1..] + rest == rest;
    } else {
      var t := l[1..] + rest;
      assert t[1..] == l[1..][1..] + rest;
      UnderscoredOverRun(l[1..], rest);
      assert l == [l[0]] + l[1..];
    }
  }

  /** Main theorem: the two `re.sub` passes insert exactly the underscores of `Underscored`. */
  lemma {:induction false} PassesAreUnderscored(s: string)
    ensures SecondPass(FirstPass(s)) == Underscored(s)
    decreases |s|, 1
  {
    if s == [] {
    } else if FirstPassMatches(s) {
      PassesOverMatch(s);
    } else {
      var c, t := s[0], s[1..];
      assert FirstPass(s) == [c] + FirstPass(t);
      if IsLowerOrDigit(c) {
        PassesAfterLower(c, t);
      } else {
        var x := FirstPass(t);
        SecondPassCopy(c, x);
        PassesAreUnderscored(t);
        if t != [] {
          assert !BreakBefore(c, t);
        }
      }
    }
  }

  /** Pass 2 fires on a lower-case letter or digit `p` followed by an upper-case letter. */
  lemma {:induction false} SecondPassBreak(p: char, x: string)
    requires IsLowerOrDigit(p) && x != [] && IsUpper(x[0])
    ensures SecondPass([p] + x) == [p] + ("_" + SecondPass(x))
  {
    var w := [p] + x;
    assert w[2..] == x[1..];
    assert SecondPass(x) == [x[0]] + SecondPass(x[1..]);
    assert [p, '_', x[0]] + SecondPass(x[1..]) == [p] + ("_" + ([x[0]] + SecondPass(x[1..])));
  }

  /** The reference's first step: an underscore exactly when `BreakBefore`, then the rest as if it started the input. */
  lemma UnderscoredAfterHead(p: char, s: string)
    requires s != []
    ensures UnderscoredAfter(p, s) == (if BreakBefore(p, s) then "_" else "") + Underscored(s)
  {
  }

  /** The companion of the main theorem for a lower-case letter or digit `p` that comes before `s`. */
  lemma {:induction false} PassesAfterLower(p: char, s: string)
    requires IsLowerOrDigit(p)
    ensures SecondPass([p] + FirstPass(s)) == [p] + UnderscoredAfter(p, s)
    decreases |s|, 3
  {
    if s == [] {
      assert [p] + FirstPass(s) == [p];
    } else if IsUpper(s[0]) {
      PassesAfterLowerUpper(p, s);
    } else {
      PassesAfterLowerOther(p, s);
    }
  }

  /** Its case of an upper-case `s[0]`: pass 2 inserts the underscore the reference asks for. */
  lemma {:induction false} PassesAfterLowerUpper(p: char, s: string)
    requires IsLowerOrDigit(p) && s != [] && IsUpper(s[0])
    ensures SecondPass([p] + FirstPass(s)) == [p] + UnderscoredAfter(p, s)
    decreases |s|, 2
  {
    var x := FirstPass(s);
    PassesAreUnderscored(s);
    UnderscoredAfterHead(p, s);
    assert BreakBefore(p, s);
    SecondPassBreak(p, x);
  }

  /** Its remaining case: neither pass 2 nor the reference breaks before `s[0]`. */
  lemma {:induction false} PassesAfterLowerOther(p: char, s: string)
    requires IsLowerOrDigit(p) && s != [] && !IsUpper(s[0])
    ensures SecondPass([p] + FirstPass(s)) == [p] + UnderscoredAfter(p, s)
    decreases |s|, 2
  {
    var x := FirstPass(s);
    PassesAreUnderscored(s);
    UnderscoredAfterHead(p, s);
    SecondPassCopy(p, x);
  }

  // ---------------------------------------------------------------------
  // Properties of camel_to_snake.
  // ---------------------------------------------------------------------

  lemma {:induction false} RemoveUnderscoresConcat(a: string, b: string)
    ensures RemoveUnderscores(a + b) == RemoveUnderscores(a) + RemoveUnderscores(b)
    decreases |a|
  {
    if a == [] {
      assert a + b == b;
    } else {
      assert (a + b)[1..] == a[1..] + b;
      RemoveUnderscoresConcat(a[1..], b);
    }
  }

  /** Lower-casing commutes with deleting underscores. */
  lemma {:induction false} RemoveUnderscoresLower(s: string)
    ensures RemoveUnderscores(Lower(s)) == Lower(RemoveUnderscores(s))
    decreases |s|
  {
    if s != [] {
      assert Lower(s)[1..] == Lower(s[1..]);
      RemoveUnderscoresLower(s[1..]);
      var h: string := if s[0] == '_' then [] else [s[0]];
      LowerConcat(h, RemoveUnderscores(s[1..]));
    }
  }

  /** Lower-casing a string without upper-case letters changes nothing. */
  lemma LowerUnchanged(s: string)
    requires NoUpper(s)
    ensures Lower(s) == s
  {
  }

  lemma LowerConcat(a: string, b: string)
    ensures Lower(a + b) == Lower(a) + Lower(b)
  {
  }

  /** The reference only inserts underscores and never drops a character. */
  lemma {:induction false} UnderscoredAfterStrip(p: char, s: string)
    ensures RemoveUnderscores(UnderscoredAfter(p, s)) == RemoveUnderscores(s)
    ensures |UnderscoredAfter(p, s)| >= |s|
    decreases |s|
  {
    if s != [] {
      var brk: string := if BreakBefore(p, s) then "_" else "";
      var u := UnderscoredAfter(s[0], s[1..]);
      UnderscoredAfterStrip(s[0], s[1..]);
      RemoveUnderscoresConcat(brk, [s[0]] + u);
      RemoveUnderscoresConcat([s[0]], u);
      assert s == [s[0]] + s[1..];
      RemoveUnderscoresConcat([s[0]], s[1..]);
    }
  }

  /** Without upper-case letters there is nowhere to insert an underscore. */
  lemma {:induction false} UnderscoredAfterUnchanged(p: char, s: string)
    requires NoUpper(s)
    ensures UnderscoredAfter(p, s) == s
    decreases |s|
  {
    if s != [] {
      UnderscoredAfterUnchanged(s[0], s[1..]);
    }
  }

  /** A character other than `'_'` occurs in the reference iff it occurs in the input. */
  lemma {:induction false} UnderscoredAfterChars(p: char, s: string, c: char)
    requires c != '_'
    ensures c in UnderscoredAfter(p, s) <==> c in s
    decreases |s|
  {
    if s != [] {
      UnderscoredAfterChars(s[0], s[1..], c);
      assert s == [s[0]] + s[1..];
    }
  }

  /**
   * `camel_to_snake` only inserts underscores into the lower-cased input:
   * deleting every `'_'` gives the same string on both sides, and the
   * output is at least as long as the input.
   */
  lemma {:induction false} CamelToSnakeOnlyInsertsUnderscores(name: string)
    ensures RemoveUnderscores(CamelToSnake(name)) == RemoveUnderscores(Lower(name))
    ensures |CamelToSnake(name)| >= |name|
  {
    var u := Underscored(name);
    if name != [] {
      UnderscoredAfterStrip(name[0], name[1..]);
      RemoveUnderscoresConcat([name[0]], UnderscoredAfter(name[0], name[1..]));
      assert name == [name[0]] + name[1..];
      RemoveUnderscoresConcat([name[0]], name[1..]);
    }
    assert RemoveUnderscores(u) == RemoveUnderscores(name);
    RemoveUnderscoresLower(u);
    RemoveUnderscoresLower(name);
  }

  /** An input without upper-case letters comes back unchanged. */
  lemma {:induction false} CamelToSnakeUnchanged(name: string)
    requires NoUpper(name)
    ensures CamelToSnake(name) == name
  {
    if name != [] {
      UnderscoredAfterUnchanged(name[0], name[1..]);
    }
    assert Underscored(name) == name;
    LowerUnchanged(name);
  }

  /** A character that is neither a letter nor `'_'` occurs in the output iff it occurs in the input. */
  lemma {:induction false} CamelToSnakeKeepsOtherChars(name: string, c: char)
    requires c != '_' && !IsUpper(c) && !IsLower(c)
    ensures c in CamelToSnake(name) <==> c in name
  {
    var u := Underscored(name);
    if name != [] {
      UnderscoredAfterChars(name[0], name[1..], c);
      assert name == [name[0]] + name[1..];
    }
    assert c in u <==> c in name;
    assert c in Lower(u) ==> c in u;
    assert c in u ==> c in Lower(u);
  }

  /** A capitalised word: an upper-case letter followed by lower-case letters. */
  predicate IsCapWord(w: string)
  {
    w != [] && IsUpper(w[0]) && forall i :: 0 < i < |w| ==> IsLower(w[i])
  }

  /** A capitalised word at the start gets no underscore. */
  lemma {:induction false} UnderscoredWord(w: string, rest: string)
    requires IsCapWord(w)
    ensures Underscored(w + rest) == w + UnderscoredAfter(w[|w| - 1], rest)
  {
    assert (w + rest)[1..] == w[1..] + rest;
    UnderscoredOverRun(w, rest);
  }

  /**
   * A capitalised word after a letter gets an underscore in front: by pass 2
   * after a lower-case letter, by pass 1 when the word has at least two letters.
   */
  lemma {:induction false} UnderscoredAfterWord(p: char, w: string, rest: string)
    requires IsCapWord(w) && (IsLowerOrDigit(p) || (p != '\n' && |w| >= 2))
    ensures UnderscoredAfter(p, w + rest) == "_" + (w + UnderscoredAfter(w[|w| - 1], rest))
  {
    assert (w + rest)[1..] == w[1..] + rest;
    assert BreakBefore(p, w + rest);
    UnderscoredOverRun(w, rest);
  }

  lemma {:induction false} UnderscoredTwoWords(a: string, b: string)
    requires IsCapWord(a) && IsCapWord(b) && |b| >= 2
    ensures Underscored(a + b) == a + ("_" + b)
  {
    UnderscoredWord(a, b);
    UnderscoredAfterWord(a[|a| - 1], b, []);
    assert b + [] == b;
  }

  lemma {:induction false} UnderscoredThreeWords(a: string, b: string, c: string)
    requires IsCapWord(a) && IsCapWord(b) && IsCapWord(c) && |b| >= 2 && |c| >= 2
    ensures Underscored(a + (b + c)) == a + ("_" + (b + ("_" + c)))
  {
    UnderscoredWord(a, b + c);
    UnderscoredAfterWord(a[|a| - 1], b, c);
    UnderscoredAfterWord(b[|b| - 1], c, []);
    assert c + [] == c;
  }

  lemma {:induction false} LowerJoin(a: string, b: string)
    ensures Lower(a + ("_" + b)) == Lower(a) + ("_" + Lower(b))
  {
    LowerConcat(a, "_" + b);
    LowerConcat("_", b);
  }

  /** A single capitalised word is only lower-cased. */
  lemma {:induction false} CamelToSnakeOneWord(a: string)
    requires IsCapWord(a)
    ensures CamelToSnake(a) == Lower(a)
  {
    UnderscoredWord(a, []);
    assert a + [] == a;
  }

  /** Two capitalised words (the second of two letters or more) are joined by one underscore. */
  lemma {:induction false} CamelToSnakeTwoWords(a: string, b: string)
    requires IsCapWord(a) && IsCapWord(b) && |b| >= 2
    ensures CamelToSnake(a + b) == Lower(a) + ("_" + Lower(b))
  {
    UnderscoredTwoWords(a, b);
    LowerJoin(a, b);
  }

  /** Three capitalised words, the first possibly a single letter as in `OAuthToken`. */
  lemma {:induction false} CamelToSnakeThreeWords(a: string, b: string, c: string)
    requires IsCapWord(a) && IsCapWord(b) && IsCapWord(c) && |b| >= 2 && |c| >= 2
    ensures CamelToSnake(a + (b + c)) == Lower(a) + ("_" + (Lower(b) + ("_" + Lower(c))))
  {
    UnderscoredThreeWords(a, b, c);
    LowerJoin(a, b + ("_" + c));
    LowerJoin(b, c);
  }

  /**
   * The words of the model class names, and their lower-cased joins. These
   * facts about literals are kept apart from the lemmas below so that the
   * solver never sees the literal next to the scans it would have to unfold.
   */
  lemma UserWords()
    ensures Lower("User") == "user"
  {
  }

  lemma OtpRequestWords()
    ensures "Otp" + "Request" == "OtpRequest"
    ensures Lower("Otp") + ("_" + Lower("Request")) == "otp_request"
  {
  }

  lemma SpotifyAccountWords()
    ensures "Spotify" + "Account" == "SpotifyAccount"
    ensures Lower("Spotify") + ("_" + Lower("Account")) == "spotify_account"
  {
  }

  lemma OAuthTokenWords()
    ensures "O" + ("Auth" + "Token") == "OAuthToken"
    ensures Lower("O") + ("_" + (Lower("Auth") + ("_" + Lower("Token")))) == "o_auth_token"
  {
  }

  /** `camel_to_snake("User")`. */
  lemma CamelToSnakeUser()
    ensures CamelToSnake("User") == "user"
  {
  }

  /** `camel_to_snake("OtpRequest")`. */
  lemma CamelToSnakeOtpRequest()
    ensures CamelToSnake("OtpRequest") == "otp_request"
  {
    CamelToSnakeTwoWords("Otp", "Request");
    OtpRequestWords();
  }

  /** `camel_to_snake("SpotifyAccount")`. */
  lemma CamelToSnakeSpotifyAccount()
    ensures CamelToSnake("SpotifyAccount") == "spotify_account"
  {
    CamelToSnakeTwoWords("Spotify", "Account");
    SpotifyAccountWords();
  }

  /** `camel_to_snake("OAuthToken")`: the lone `O` is a word of its own. */
  lemma CamelToSnakeOAuthToken()
    ensures CamelToSnake("OAuthToken") == "o_auth_token"
  {
    CamelToSnakeThreeWords("O", "Auth", "Token");
    OAuthTokenWords();
  }
}
