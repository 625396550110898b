/** Character and string operations shared by the models: Python's `str.strip`, ASCII case mapping, and `split`. */
module Text {

  // -- Whitespace ---------------------------------------------------------------------------

  /** The code points Python's `str.isspace` accepts. */
  predicate IsSpace(c: char) {
    var n := c as int;
    || 9 <= n <= 13 || 28 <= n <= 32 || n == 0x85 || n == 0xA0 || n == 0x1680
    || 0x2000 <= n <= 0x200A || n == 0x2028 || n == 0x2029 || n == 0x202F || n == 0x205F || n == 0x3000
  }

  /** The code points JavaScript's `String.prototype.trim` removes. */
  predicate IsJsSpace(c: char) {
    var n := c as int;
    || 9 <= n <= 13 || n == 32 || n == 0xA0 || n == 0x1680
    || 0x2000 <= n <= 0x200A || n == 0x2028 || n == 0x2029 || n == 0x202F || n == 0x205F || n == 0x3000 || n == 0xFEFF
  }

  predicate All(p: char -> bool, s: string) {
    forall i :: 0 <= i < |s| ==> p(s[i])
  }

  function TrimStart(p: char -> bool, s: string): string {
    if s != "" && p(s[0]) then TrimStart(p, s[1..]) else s
  }

  function TrimEnd(p: char -> bool, s: string): string {
    if s != "" && p(s[|s| - 1]) then TrimEnd(p, s[..|s| - 1]) else s
  }

  function Trim(p: char -> bool, s: string): string {
    TrimEnd(p, TrimStart(p, s))
  }

  /** Neither end satisfies `p`. */
  predicate IsTrimmed(p: char -> bool, s: string) {
    s != "" ==> !p(s[0]) && !p(s[|s| - 1])
  }

  predicate Blank(s: string) {
    All(IsSpace, s)
  }

  predicate Trimmed(s: string) {
    IsTrimmed(IsSpace, s)
  }

  /** Python's `s.strip()`. */
  function Strip(s: string): string {
    Trim(IsSpace, s)
  }

  /** JavaScript's `s.trim()`. */
  function JsTrim(s: string): string {
    Trim(IsJsSpace, s)
  }

  lemma {:induction false} TrimEndIsPrefix(p: char -> bool, s: string)
    ensures TrimEnd(p, s) <= s
    ensures All(p, s[|TrimEnd(p, s)|..])
    ensures TrimEnd(p, s) != "" ==> !p(TrimEnd(p, s)[|TrimEnd(p, s)| - 1])
  {
    if s != "" && p(s[|s| - 1]) {
      TrimEndIsPrefix(p, s[..|s| - 1]);
    }
  }

  /** Trimming splits a string into ends that satisfy `p` around a trimmed core. */
  lemma {:induction false} TrimSplits(p: char -> bool, s: string) returns (a: string, b: string)
    ensures All(p, a) && All(p, b) && s == a + Trim(p, s) + b && IsTrimmed(p, Trim(p, s))
  {
    if s != "" && p(s[0]) {
      var a', b' := TrimSplits(p, s[1..]);
      a, b := [s[0]] + a', b';
    } else {
      TrimEndIsPrefix(p, s);
      a, b := "", s[|TrimEnd(p, s)|..];
    }
  }

  lemma {:induction false} TrimStartSkips(p: char -> bool, a: string, s: string)
    requires All(p, a)
    ensures TrimStart(p, a + s) == TrimStart(p, s)
  {
    if a == "" {
      assert a + s == s;
    } else {
      assert (a + s)[1..] == a[1..] + s;
      TrimStartSkips(p, a[1..], s);
    }
  }

  lemma {:induction false} TrimEndSkips(p: char -> bool, s: string, b: string)
    requires All(p, b)
    ensures TrimEnd(p, s + b) == TrimEnd(p, s)
  {
    if b == "" {
      assert s + b == s;
    } else {
      var b' := b[..|b| - 1];
      assert (s + b)[..|s + b| - 1] == s + b';
      TrimEndSkips(p, s, b');
    }
  }

  lemma {:induction false} TrimSkipsEnd(p: char -> bool, u: string, b: string)
    requires All(p, b)
    ensures Trim(p, u + b) == Trim(p, u)
  {
    if u == "" {
      assert u + b == b;
      TrimStartSkips(p, b, "");
      assert b + "" == b;
    } else if p(u[0]) {
      assert (u + b)[1..] == u[1..] + b;
      TrimSkipsEnd(p, u[1..], b);
    } else {
      TrimEndSkips(p, u, b);
    }
  }

  lemma {:induction false} TrimStartStops(p: char -> bool, s: string, c: char, t: string)
    requires !p(c)
    ensures TrimStart(p, s + [c] + t) == TrimStart(p, s) + [c] + t
    ensures TrimStart(p, TrimStart(p, s)) == TrimStart(p, s)
  {
    if s == "" {
      assert s + [c] + t == [c] + t;
    } else {
      assert (s + [c] + t)[1..] == s[1..] + [c] + t;
      TrimStartStops(p, s[1..], c, t);
    }
  }

  lemma {:induction false} TrimEndStops(p: char -> bool, s: string, c: char, t: string)
    requires !p(c)
    ensures TrimEnd(p, s + [c] + t) == s + [c] + TrimEnd(p, t)
    ensures TrimEnd(p, TrimEnd(p, t)) == TrimEnd(p, t)
  {
    if t == "" {
      assert s + [c] + t == s + [c];
    } else {
      assert (s + [c] + t)[..|s + [c] + t| - 1] == s + [c] + t[..|t| - 1];
      TrimEndStops(p, s, c, t[..|t| - 1]);
    }
  }

  /** Trimming stops at a character it keeps, from either side. */
  lemma TrimAround(p: char -> bool, s: string, c: char, t: string)
    requires !p(c)
    ensures Trim(p, s + [c] + t) == TrimStart(p, s) + [c] + TrimEnd(p, t)
    ensures Trim(p, TrimStart(p, s)) == Trim(p, s)
  {
    TrimStartStops(p, s, c, t);
    TrimEndStops(p, TrimStart(p, s), c, t);
  }

  /** Whatever text that satisfies `p` surrounds `u`, trimming sees only `u`. */
  lemma TrimIgnoresEnds(p: char -> bool, a: string, u: string, b: string)
    requires All(p, a) && All(p, b)
    ensures Trim(p, a + u + b) == Trim(p, u)
  {
    assert a + u + b == a + (u + b);
    TrimStartSkips(p, a, u + b);
    TrimSkipsEnd(p, u, b);
  }

  lemma TrimmedIsFixed(s: string)
    requires Trimmed(s)
    ensures Strip(s) == s
  {
  }

  lemma StripIdempotent(s: string)
    ensures Trimmed(Strip(s)) && Strip(Strip(s)) == Strip(s)
  {
    var _, _ := TrimSplits(IsSpace, s);
  }

  lemma {:induction false} BlankTrims(s: string)
    requires Blank(s)
    ensures Strip(s) == ""
  {
    if s == "" {
    } else {
      BlankTrims(s[1..]);
    }
  }

  lemma BlankExactly(s: string)
    ensures Blank(s) <==> Strip(s) == ""
  {
    if Blank(s) {
      BlankTrims(s);
    } else {
      var a, b := TrimSplits(IsSpace, s);
      assert Strip(s) == "" ==> s == a + b;
    }
  }

  // -- Removing characters ------------------------------------------------------------------

  /** `s.replace(c, "")`. */
  function Without(s: string, c: char): string {
    if s == "" then "" else (if s[0] == c then "" else [s[0]]) + Without(s[1..], c)
  }

  lemma {:induction false} WithoutAppend(s: string, t: string, c: char)
    ensures Without(s + t, c) == Without(s, c) + Without(t, c)
  {
    if s == "" {
      assert s + t == t;
    } else {
      assert (s + t)[1..] == s[1..] + t;
      WithoutAppend(s[1..], t, c);
    }
  }

  /** That character is dropped wherever it stands, any other kept. */
  lemma WithoutExactly(a: string, d: char, b: string, c: char)
    ensures Without(a + [d] + b, c) == Without(a, c) + (if d == c then "" else [d]) + Without(b, c)
  {
    WithoutAppend(a + [d], b, c);
    WithoutAppend(a, [d], c);
    assert [d][1..] == "";
  }

  lemma {:induction false} WithoutKeepsBlank(s: string, c: char)
    requires Blank(s)
    ensures Blank(Without(s, c))
  {
    if s == "" {
    } else {
      WithoutKeepsBlank(s[1..], c);
    }
  }

  // -- Case ---------------------------------------------------------------------------------

  function LowerChar(c: char): char {
    if 'A' <= c <= 'Z' then (c as int + 32) as char else c
  }

  function UpperChar(c: char): char {
    if 'a' <= c <= 'z' then (c as int - 32) as char else c
  }

  const UPPERS := "ABCDEFGHIJKLMNOPQRSTUVWXYZ"
  const LOWERS := "abcdefghijklmnopqrstuvwxyz"

  /** Case mapping pairs the letters and leaves all else alone. */
  lemma LowerExactly(c: char, i: nat)
    requires i < 26
    ensures |UPPERS| == |LOWERS| == 26
    ensures LowerChar(UPPERS[i]) == LowerChar(LOWERS[i]) == LOWERS[i]
    ensures !('A' <= c <= 'Z' || 'a' <= c <= 'z') ==> LowerChar(c) == c
  {
  }

  lemma UpperExactly(c: char, i: nat)
    requires i < 26
    ensures |UPPERS| == |LOWERS| == 26
    ensures UpperChar(UPPERS[i]) == UpperChar(LOWERS[i]) == UPPERS[i]
    ensures !('A' <= c <= 'Z' || 'a' <= c <= 'z') ==> UpperChar(c) == c
  {
  }

  function Lower(s: string): string {
    seq(|s|, i requires 0 <= i < |s| => LowerChar(s[i]))
  }

  function Upper(s: string): string {
    seq(|s|, i requires 0 <= i < |s| => UpperChar(s[i]))
  }

  // -- Splitting ----------------------------------------------------------------------------

  /** Python's and JavaScript's `s.split(sep)` for a one-character separator. */
  function Split(s: string, sep: char): (parts: seq<string>)
    ensures |parts| >= 1
  {
    if s == "" then [""]
    else
      var rest := Split(s[1..], sep);
      if s[0] == sep then [""] + rest
      else [[s[0]] + rest[0]] + rest[1..]
  }

  function Join(parts: seq<string>, sep: char): string
    requires |parts| >= 1
  {
    if |parts| == 1 then parts[0] else parts[0] + [sep] + Join(parts[1..], sep)
  }

  lemma {:induction false} JoinSplit(s: string, sep: char)
    ensures Join(Split(s, sep), sep) == s
  {
    if s == "" {
    } else {
      JoinSplit(s[1..], sep);
      var rest := Split(s[1..], sep);
      if s[0] == sep {
        assert ([""] + rest)[1..] == rest;
      } else {
        assert ([[s[0]] + rest[0]] + rest[1..])[1..] == rest[1..];
      }
    }
  }

  lemma {:induction false} SplitAtSeparator(a: string, b: string, sep: char)
    ensures Split(a + [sep] + b, sep) == Split(a, sep) + Split(b, sep)
  {
    if a == "" {
      assert a + [sep] + b == [sep] + b;
      assert ([sep] + b)[1..] == b;
    } else {
      assert (a + [sep] + b)[1..] == a[1..] + [sep] + b;
      SplitAtSeparator(a[1..], b, sep);
    }
  }

  lemma {:induction false} SplitWithout(s: string, sep: char)
    requires sep !in s
    ensures Split(s, sep) == [s]
  {
    if s == "" {
    } else {
      SplitWithout(s[1..], sep);
      assert s == [s[0]] + s[1..];
    }
  }

  lemma {:induction false} PartsLackSeparator(s: string, sep: char)
    ensures forall i :: 0 <= i < |Split(s, sep)| ==> sep !in Split(s, sep)[i]
  {
    if s == "" {
    } else {
      PartsLackSeparator(s[1..], sep);
    }
  }

  lemma {:induction false} JoinAppend(p: seq<string>, q: seq<string>, sep: char)
    requires |p| >= 1 && |q| >= 1
    ensures Join(p + q, sep) == Join(p, sep) + [sep] + Join(q, sep)
  {
    if |p| == 1 {
      assert (p + q)[1..] == q;
    } else {
      assert (p + q)[1..] == p[1..] + q;
      JoinAppend(p[1..], q, sep);
    }
  }
}
