/**
  Which sign-in a user name leads to, decided in the browser (LoginPage.tsx) and on the server
  (upn.py, security.py).
 */
module Upn {
  import opened Options
  import opened Text

  const LOCAL_UPN_SUFFIX := "internal"

  datatype ParsedUpn = ParsedUpn(localPart: string, suffix: Option<string>, raw: string)

  /** The position of the last `@`, as `rsplit("@", 1)` finds it. */
  function LastAt(s: string): (i: nat)
    requires '@' in s
    ensures i < |s| && s[i] == '@' && '@' !in s[i + 1..]
  {
    if s[|s| - 1] == '@' then |s| - 1
    else
      assert s == s[..|s| - 1] + [s[|s| - 1]];
      LastAt(s[..|s| - 1])
  }

  function ParseUpn(value: string): ParsedUpn {
    var raw := Strip(value);
    if '@' !in raw then ParsedUpn(raw, None, raw)
    else
      var i := LastAt(raw);
      ParsedUpn(Strip(raw[..i]), NonEmpty(Lower(Strip(raw[i + 1..]))), raw)
  }

  predicate IsLocalRoute(p: ParsedUpn) {
    p.suffix.None? || p.suffix.value == LOCAL_UPN_SUFFIX
  }

  /** The browser's `parseSuffix`. */
  function ParseSuffix(username: string): Option<string> {
    var trimmed := JsTrim(username);
    if '@' !in trimmed then None
    else
      var parts := Split(trimmed, '@');
      NonEmpty(Lower(JsTrim(parts[|parts| - 1])))
  }

  /** `sso` maps the suffixes the server knows to whether they sign in elsewhere. */
  predicate NeedsSso(username: string, sso: map<string, bool>) {
    var suffix := ParseSuffix(username);
    && suffix.Some?
    && suffix.value != LOCAL_UPN_SUFFIX
    && (suffix.value in sso ==> sso[suffix.value])
  }

  /** The text behind the last `@`. */
  function Tail(s: string): string
    requires '@' in s
  {
    s[LastAt(s) + 1..]
  }

  lemma {:induction false} SplitTail(s: string)
    ensures var parts := Split(s, '@');
            parts[|parts| - 1] == if '@' in s then Tail(s) else s
  {
    if '@' in s {
      var i := LastAt(s);
      assert s == s[..i] + ['@'] + s[i + 1..];
      SplitAtSeparator(s[..i], s[i + 1..], '@');
      SplitWithout(s[i + 1..], '@');
    } else {
      SplitWithout(s, '@');
    }
  }

  lemma LastAtUnique(s: string, i: nat)
    requires i < |s| && s[i] == '@' && '@' !in s[i + 1..]
    ensures LastAt(s) == i
  {
    var j := LastAt(s);
    forall k | i < k < |s| ensures s[k] != '@' {
      assert s[k] == s[i + 1..][k - i - 1];
    }
    forall k | j < k < |s| ensures s[k] != '@' {
      assert s[k] == s[j + 1..][k - j - 1];
    }
  }

  /** Trimming the whole text first does not change what trimming makes of the tail. */
  lemma TailOfTrimmed(p: char -> bool, s: string)
    requires !p('@')
    ensures '@' in Trim(p, s) <==> '@' in s
    ensures '@' in s ==> Trim(p, Tail(Trim(p, s))) == Trim(p, Tail(s))
  {
    var a, b := TrimSplits(p, s);
    var core := Trim(p, s);
    assert '@' !in a && '@' !in b;
    if '@' in core {
      var i := LastAt(core);
      assert s[|a| + i] == core[i];
      assert s[|a| + i + 1..] == core[i + 1..] + b;
      LastAtUnique(s, |a| + i);
      TrimSkipsEnd(p, core[i + 1..], b);
    }
  }

  /** Both sides read the suffix from the text behind the last `@` of what was typed; only their trimming differs. */
  lemma SuffixesFromTail(value: string)
    ensures ParseUpn(value).suffix == if '@' in value then NonEmpty(Lower(Strip(Tail(value)))) else None
    ensures ParseSuffix(value) == if '@' in value then NonEmpty(Lower(JsTrim(Tail(value)))) else None
  {
    TailOfTrimmed(IsSpace, value);
    TailOfTrimmed(IsJsSpace, value);
    SplitTail(JsTrim(value));
  }

  lemma LocalPartOf(name: string, suffix: string)
    requires '@' !in suffix
    ensures ParseUpn(name + "@" + suffix).localPart == Strip(name)
  {
    var n, t := TrimStart(IsSpace, name), TrimEnd(IsSpace, suffix);
    TrimAround(IsSpace, name, '@', suffix);
    TrimEndIsPrefix(IsSpace, suffix);
    var raw := n + ['@'] + t;
    assert Strip(name + "@" + suffix) == raw;
    assert raw[|n|] == '@' && raw[|n| + 1..] == t && raw[..|n|] == n;
    LastAtUnique(raw, |n|);
  }

  lemma SuffixOf(name: string, suffix: string)
    requires '@' !in suffix
    ensures ParseUpn(name + "@" + suffix).suffix == if Blank(suffix) then None else Some(Lower(Strip(suffix)))
  {
    var value := name + "@" + suffix;
    assert value[|name|] == '@' && value[|name| + 1..] == suffix;
    LastAtUnique(value, |name|);
    SuffixesFromTail(value);
    BlankExactly(suffix);
  }

  /** The server splits at the last `@`, trims both sides, and lower-cases the suffix; a blank suffix is none. */
  lemma ParsedExactly(name: string, suffix: string)
    requires '@' !in suffix
    ensures ParseUpn(name + "@" + suffix) ==
            ParsedUpn(Strip(name), if Blank(suffix) then None else Some(Lower(Strip(suffix))),
                      Strip(name + "@" + suffix))
    ensures ParseUpn(suffix) == ParsedUpn(Strip(suffix), None, Strip(suffix))
  {
    LocalPartOf(name, suffix);
    SuffixOf(name, suffix);
    TailOfTrimmed(IsSpace, suffix);
  }

  // -- When the two trims agree -------------------------------------------------------------

  /** Whitespace in both languages. */
  predicate IsCommonSpace(c: char) {
    IsSpace(c) && IsJsSpace(c)
  }

  /** Whitespace in one of the two languages only. */
  predicate IsDisputed(c: char) {
    IsSpace(c) != IsJsSpace(c)
  }

  /**
    The disputed characters: the four separators and the next line are Python's alone, the byte order
    mark JavaScript's.
   */
  lemma DisputedExactly(c: char)
    ensures IsDisputed(c) <==> 28 <= c as int <= 31 || c as int == 0x85 || c as int == 0xFEFF
    ensures IsSpace(c) && IsDisputed(c) <==> 28 <= c as int <= 31 || c as int == 0x85
  {
  }

  /** Once common whitespace is off both ends, neither end is disputed. */
  predicate EndsUndisputed(s: string) {
    var core := Trim(IsCommonSpace, s);
    core == "" || (!IsDisputed(core[0]) && !IsDisputed(core[|core| - 1]))
  }

  lemma SpacesAreNoLetters(c: char)
    requires IsSpace(c) || IsJsSpace(c)
    ensures LowerChar(c) == c && forall d :: LowerChar(d) == c <==> d == c
  {
  }

  lemma TrimOfCore(p: char -> bool, s: string)
    requires forall c :: IsCommonSpace(c) ==> p(c)
    ensures Trim(p, s) == Trim(p, Trim(IsCommonSpace, s))
  {
    var a, b := TrimSplits(IsCommonSpace, s);
    TrimIgnoresEnds(p, a, Trim(IsCommonSpace, s), b);
  }

  lemma {:induction false} FirstStays(q: char -> bool, s: string)
    requires s != "" && !q(s[0])
    ensures Trim(q, s) != "" && Trim(q, s)[0] == s[0]
  {
    if q(s[|s| - 1]) {
      FirstStays(q, s[..|s| - 1]);
    }
  }

  /** A first character that only `p` takes for whitespace stays when trimming by `q` and goes when trimming by `p`. */
  lemma FirstTellsThemApart(p: char -> bool, q: char -> bool, s: string)
    requires s != "" && p(s[0]) && !q(s[0]) && (IsSpace(s[0]) || IsJsSpace(s[0]))
    ensures Lower(Trim(p, s)) != Lower(Trim(q, s))
  {
    var _, _ := TrimSplits(p, s);
    FirstStays(q, s);
    SpacesAreNoLetters(s[0]);
    if Trim(p, s) != "" {
      assert Lower(Trim(p, s))[0] == LowerChar(Trim(p, s)[0]);
    }
    assert Lower(Trim(q, s))[0] == s[0];
  }

  lemma {:induction false} LastStays(q: char -> bool, s: string)
    requires s != "" && !q(s[|s| - 1])
    ensures Trim(q, s) != "" && Trim(q, s)[|Trim(q, s)| - 1] == s[|s| - 1]
  {
    if q(s[0]) {
      LastStays(q, s[1..]);
    }
  }

  lemma LastTellsThemApart(p: char -> bool, q: char -> bool, s: string)
    requires s != "" && p(s[|s| - 1]) && !q(s[|s| - 1]) && (IsSpace(s[|s| - 1]) || IsJsSpace(s[|s| - 1]))
    ensures Lower(Trim(p, s)) != Lower(Trim(q, s))
  {
    var _, _ := TrimSplits(p, s);
    LastStays(q, s);
    SpacesAreNoLetters(s[|s| - 1]);
    var t, u := Trim(p, s), Trim(q, s);
    if t == "" {
    } else {
      assert Lower(t)[|t| - 1] == LowerChar(t[|t| - 1]);
    }
    assert Lower(u)[|u| - 1] == s[|s| - 1];
  }

  /** The two ways of trimming a text agree, up to case or not, exactly when its ends are undisputed. */
  lemma TrimsAgreeExactly(s: string)
    ensures Lower(JsTrim(s)) == Lower(Strip(s)) <==> EndsUndisputed(s)
    ensures JsTrim(s) == Strip(s) <==> EndsUndisputed(s)
  {
    var core := Trim(IsCommonSpace, s);
    TrimOfCore(IsSpace, s);
    TrimOfCore(IsJsSpace, s);
    var _, _ := TrimSplits(IsCommonSpace, s);
    if core == "" {
    } else if IsDisputed(core[0]) {
      if IsSpace(core[0]) {
        FirstTellsThemApart(IsSpace, IsJsSpace, core);
      } else {
        FirstTellsThemApart(IsJsSpace, IsSpace, core);
      }
    } else if IsDisputed(core[|core| - 1]) {
      if IsSpace(core[|core| - 1]) {
        LastTellsThemApart(IsSpace, IsJsSpace, core);
      } else {
        LastTellsThemApart(IsJsSpace, IsSpace, core);
      }
    } else {
      assert Trim(IsSpace, core) == core && Trim(IsJsSpace, core) == core;
    }
  }

  /**
    The browser and the server see the same suffix exactly when the text behind the last `@`, freed
    of the whitespace both languages strip, is empty or has no end that only one of them strips.
   */
  lemma SuffixesAgreeExactly(value: string)
    ensures ParseSuffix(value) == ParseUpn(value).suffix <==> ('@' in value ==> EndsUndisputed(Tail(value)))
  {
    SuffixesFromTail(value);
    if '@' in value {
      TrimsAgreeExactly(Tail(value));
    }
  }

  /**
    For every such name, whatever else it contains, the browser sends those users to single
    sign-on whose suffix the server does not route locally and does not know to sign in with a password.
   */
  lemma LoginAgreement(username: string, sso: map<string, bool>)
    requires '@' in username ==> EndsUndisputed(Tail(username))
    ensures ParseSuffix(username) == ParseUpn(username).suffix
    ensures NeedsSso(username, sso) <==>
            var p := ParseUpn(username);
            !IsLocalRoute(p) && (p.suffix.value in sso ==> sso[p.suffix.value])
  {
    SuffixesAgreeExactly(username);
  }

  const SEPARATED := LOCAL_UPN_SUFFIX + [31 as char]

  lemma SeparatedTrims()
    ensures Strip(SEPARATED) == LOCAL_UPN_SUFFIX && JsTrim(SEPARATED) == SEPARATED
    ensures Lower(LOCAL_UPN_SUFFIX) == LOCAL_UPN_SUFFIX && Lower(SEPARATED) != LOCAL_UPN_SUFFIX
  {
    TrimSkipsEnd(IsSpace, LOCAL_UPN_SUFFIX, [31 as char]);
    TrimmedIsFixed(LOCAL_UPN_SUFFIX);
    assert |Lower(SEPARATED)| == 9;
  }

  /**
    With a unit separator typed behind the local suffix, they part: the server routes locally, the
    browser to single sign-on.
   */
  lemma SeparatorSplitsThem(user: string, typed: string)
    requires typed == user + "@" + SEPARATED
    ensures IsLocalRoute(ParseUpn(typed)) && NeedsSso(typed, map[])
  {
    assert '@' !in SEPARATED;
    assert typed[|user|] == '@' && typed[|user| + 1..] == SEPARATED;
    LastAtUnique(typed, |user|);
    SuffixesFromTail(typed);
    SeparatedTrims();
  }
}
