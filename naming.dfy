/**
 * The naming helpers of the Terraform generator: turning a configuration
 * name into a Terraform identifier, quoting a value as a Terraform string
 * literal, and numbering router resources that share an identifier.
 */
module Naming {
  import opened Wrappers
  import opened Text

  predicate IsAsciiAlnum(c: char) { IsAsciiUpper(c) || IsAsciiLower(c) || IsDigit(c) }

  /** The characters `[a-zA-Z0-9_]` that survive the substitution step. */
  predicate IsWordChar(c: char) { IsAsciiAlnum(c) || c == '_' }

  /** The characters `[a-z0-9_]` a sanitized name is made of. */
  predicate IsNameChar(c: char) { IsAsciiLower(c) || IsDigit(c) || c == '_' }

  // ---------------------------------------------------------------------
  // sanitize_name
  // ---------------------------------------------------------------------

  /** Every character outside `[a-zA-Z0-9_]` becomes `_`. */
  function Underscored(s: string): (r: string)
    ensures |r| == |s|
    ensures forall i :: 0 <= i < |s| ==> r[i] == if IsWordChar(s[i]) then s[i] else '_'
  {
    if s == [] then [] else [if IsWordChar(s[0]) then s[0] else '_'] + Underscored(s[1..])
  }

  /** Leading underscores removed. */
  function StripLeft(s: string): (r: string)
    ensures |r| <= |s|
    ensures r == [] || r[0] != '_'
  {
    if s != [] && s[0] == '_' then StripLeft(s[1..]) else s
  }

  /** `StripLeft` keeps the suffix after the leading underscores. */
  lemma {:induction false} StripLeftSuffix(s: string)
    ensures var r := StripLeft(s);
      && r == s[|s| - |r|..]
      && forall i :: 0 <= i < |s| - |r| ==> s[i] == '_'
  {
    if s != [] && s[0] == '_' {
      StripLeftSuffix(s[1..]);
      assert s[1..][|s| - 1 - |StripLeft(s)|..] == s[|s| - |StripLeft(s)|..];
    }
  }

  /** Trailing underscores removed. */
  function StripRight(s: string): (r: string)
    ensures |r| <= |s|
    ensures r == [] || r[|r| - 1] != '_'
  {
    if s != [] && s[|s| - 1] == '_' then StripRight(s[..|s| - 1]) else s
  }

  /** `StripRight` keeps the prefix before the trailing underscores. */
  lemma {:induction false} StripRightPrefix(s: string)
    ensures var r := StripRight(s);
      && r == s[..|r|]
      && forall i :: |r| <= i < |s| ==> s[i] == '_'
  {
    if s != [] && s[|s| - 1] == '_' {
      StripRightPrefix(s[..|s| - 1]);
      assert s[..|s| - 1][..|StripRight(s)|] == s[..|StripRight(s)|];
    }
  }

  /** `s.strip('_')`: underscores removed from both ends. */
  function Strip(s: string): (r: string)
    ensures |r| <= |s|
    ensures r == [] || (r[0] != '_' && r[|r| - 1] != '_')
  {
    StripRightPrefix(StripLeft(s));
    StripRight(StripLeft(s))
  }

  /** Stripping cuts one slice out of the input. */
  lemma StripSlice(s: string)
    ensures var lo := |s| - |StripLeft(s)|;
      lo + |Strip(s)| <= |s| && Strip(s) == s[lo..lo + |Strip(s)|]
  {
    var l := StripLeft(s);
    var r := StripRight(l);
    StripLeftSuffix(s);
    StripRightPrefix(l);
    assert r == s[|s| - |l|..][..|r|];
  }

  /** Stripping empties exactly a string made only of underscores. */
  lemma StripEmpty(s: string)
    ensures Strip(s) == [] <==> forall i :: 0 <= i < |s| ==> s[i] == '_'
  {
    var l := StripLeft(s);
    var r := StripRight(l);
    StripLeftSuffix(s);
    StripRightPrefix(l);
    if r != [] {
      StripSlice(s);
      assert s[|s| - |l|] == r[0];
    }
  }

  /** A leading digit gets one `_` in front. */
  function GuardDigit(t: string): (p: string)
    ensures t != [] && IsDigit(t[0]) ==> p == "_" + t
    ensures !(t != [] && IsDigit(t[0])) ==> p == t
  {
    if t != [] && IsDigit(t[0]) then "_" + t else t
  }

  /**
   * `sanitize_name`: non-word characters become `_`, underscores are
   * stripped from both ends, a leading digit gets one `_` in front, and
   * ASCII letters are lower-cased. `SanitizeNameShape` states what the
   * result looks like.
   */
  function SanitizeName(name: string): (r: string)
    ensures |r| <= |name| + 1
  {
    Lower(GuardDigit(Strip(Underscored(name))))
  }

  /** Lower-casing maps word characters to name characters and keeps `_` and digits where they are. */
  lemma LowerWordChar(c: char)
    requires IsWordChar(c)
    ensures IsNameChar(LowerChar(c))
    ensures LowerChar(c) == '_' <==> c == '_'
    ensures IsDigit(LowerChar(c)) <==> IsDigit(c)
  {
  }

  /** What survives substitution and stripping is made of word characters. */
  lemma SurvivorsAreWordChars(name: string)
    ensures var t := Strip(Underscored(name));
      forall i :: 0 <= i < |t| ==> IsWordChar(t[i])
  {
    var u := Underscored(name);
    var t := Strip(u);
    StripSlice(u);
    var lo := |u| - |StripLeft(u)|;
    forall i | 0 <= i < |t| ensures IsWordChar(t[i]) {
      assert t[i] == u[lo + i];
    }
  }

  /** Nothing survives exactly when the name has no ASCII letter or digit. */
  lemma SurvivorsEmpty(name: string)
    ensures Strip(Underscored(name)) == [] <==> forall i :: 0 <= i < |name| ==> !IsAsciiAlnum(name[i])
  {
    var u := Underscored(name);
    StripEmpty(u);
    if Strip(u) == [] {
      forall i | 0 <= i < |name| ensures !IsAsciiAlnum(name[i]) {
        assert u[i] == '_';
      }
    } else {
      var i :| 0 <= i < |u| && u[i] != '_';
      assert IsAsciiAlnum(name[i]);
    }
  }

  lemma GuardDigitWordChars(t: string)
    requires forall i :: 0 <= i < |t| ==> IsWordChar(t[i])
    requires t == [] || (t[0] != '_' && t[|t| - 1] != '_')
    ensures var p := GuardDigit(t);
      && (forall i :: 0 <= i < |p| ==> IsWordChar(p[i]))
      && (p == [] <==> t == [])
      && (p == [] || (p[|p| - 1] != '_' && !IsDigit(p[0])))
      && (p != [] && p[0] == '_' ==> |p| > 1 && IsDigit(p[1]))
  {
    if t != [] && IsDigit(t[0]) {
      var p := "_" + t;
      assert forall i :: 1 <= i < |p| ==> p[i] == t[i - 1];
    }
  }

  lemma LowerNameChars(p: string)
    requires forall i :: 0 <= i < |p| ==> IsWordChar(p[i])
    ensures forall i :: 0 <= i < |Lower(p)| ==> IsNameChar(Lower(p)[i])
  {
    forall i | 0 <= i < |p| ensures IsNameChar(Lower(p)[i]) {
      LowerWordChar(p[i]);
    }
  }

  /**
   * The shape of a sanitized name: only `[a-z0-9_]`, never a trailing `_`,
   * never a leading digit (a leading `_` is followed by the digit it
   * guards), and empty exactly when the name has no ASCII letter or digit
   * (in particular for the empty name).
   */
  lemma SanitizeNameShape(name: string)
    ensures var r := SanitizeName(name);
      && (forall i :: 0 <= i < |r| ==> IsNameChar(r[i]))
      && (r == [] || r[|r| - 1] != '_')
      && (r == [] || !IsDigit(r[0]))
      && (|r| > 0 && r[0] == '_' ==> |r| > 1 && IsDigit(r[1]))
      && (r == [] <==> forall i :: 0 <= i < |name| ==> !IsAsciiAlnum(name[i]))
  {
    var t := Strip(Underscored(name));
    SurvivorsAreWordChars(name);
    SurvivorsEmpty(name);
    var p := GuardDigit(t);
    GuardDigitWordChars(t);
    LowerNameChars(p);
    if t != [] {
      LowerWordChar(p[0]);
      LowerWordChar(p[|p| - 1]);
      if p[0] == '_' {
        LowerWordChar(p[1]);
      }
    }
  }

  lemma {:induction false} LowerIdentity(s: string)
    requires forall i :: 0 <= i < |s| ==> !IsAsciiUpper(s[i])
    ensures Lower(s) == s
  {
  }

  /** A name already in sanitized form is its own sanitization. */
  lemma SanitizeNameFixed(s: string)
    requires forall i :: 0 <= i < |s| ==> IsNameChar(s[i])
    requires s == [] || (s[0] != '_' && s[|s| - 1] != '_' && !IsDigit(s[0]))
    ensures SanitizeName(s) == s
  {
    assert Underscored(s) == s;
    assert StripLeft(s) == s;
    assert StripRight(s) == s;
    LowerIdentity(s);
  }

  /** Sanitizing twice gives the same identifier as sanitizing once. */
  lemma SanitizeNameIdempotent(name: string)
    ensures SanitizeName(SanitizeName(name)) == SanitizeName(name)
  {
    var r := SanitizeName(name);
    SanitizeNameShape(name);
    if r != [] && r[0] == '_' {
      var t := r[1..];
      assert Underscored(r) == r;
      assert StripLeft(t) == t;
      assert StripLeft(r) == t;
      assert StripRight(t) == t;
      assert GuardDigit(t) == r;
      LowerIdentity(r);
    } else {
      SanitizeNameFixed(r);
    }
  }

  // ---------------------------------------------------------------------
  // escape_string
  // ---------------------------------------------------------------------

  /** `s.replace(c, rep)` for a one-character pattern `c`. */
  function Replace(s: string, c: char, rep: string): (r: string)
    ensures c !in rep ==> c !in r
    ensures forall d :: d in r ==> d in s || d in rep
  {
    if s == [] then [] else (if s[0] == c then rep else [s[0]]) + Replace(s[1..], c, rep)
  }

  lemma {:induction false} ReplaceAppend(a: string, b: string, c: char, rep: string)
    ensures Replace(a + b, c, rep) == Replace(a, c, rep) + Replace(b, c, rep)
  {
    if a != [] {
      assert (a + b)[1..] == a[1..] + b;
      ReplaceAppend(a[1..], b, c, rep);
    } else {
      assert a + b == b;
    }
  }

  /** The escape of one character: backslash, quote and newline are written with a backslash. */
  function EscapeChar(c: char): (r: string)
    ensures c == '\\' ==> r == "\\\\"
    ensures c == '"' ==> r == "\\\""
    ensures c == '\n' ==> r == "\\n"
    ensures c in "\\\"\n" ==> |r| == 2 && r[0] == '\\'
    ensures c !in "\\\"\n" ==> r == [c]
  {
    if c == '\\' then "\\\\" else if c == '"' then "\\\"" else if c == '\n' then "\\n" else [c]
  }

  /** The per-character reference escape of a whole string. */
  function EscapeAll(s: string): (r: string)
    ensures '\n' !in r
  {
    if s == [] then [] else EscapeChar(s[0]) + EscapeAll(s[1..])
  }

  /** The three `replace` calls of `escape_string`, backslash first. */
  function EscapeBody(v: string): string
  {
    Replace(Replace(Replace(v, '\\', "\\\\"), '"', "\\\""), '\n', "\\n")
  }

  /** The chained replacements distribute over concatenation. */
  lemma EscapeBodyAppend(a: string, b: string)
    ensures EscapeBody(a + b) == EscapeBody(a) + EscapeBody(b)
  {
    ReplaceAppend(a, b, '\\', "\\\\");
    var a1, b1 := Replace(a, '\\', "\\\\"), Replace(b, '\\', "\\\\");
    ReplaceAppend(a1, b1, '"', "\\\"");
    ReplaceAppend(Replace(a1, '"', "\\\""), Replace(b1, '"', "\\\""), '\n', "\\n");
  }

  /** On a single character the chained replacements give that character's escape. */
  lemma EscapeBodyChar(x: char)
    ensures EscapeBody([x]) == EscapeChar(x)
  {
    if x == '\\' {
      assert Replace([x], '\\', "\\\\") == "\\\\";
      ReplaceAppend("\\", "\\", '"', "\\\"");
      ReplaceAppend("\\", "\\", '\n', "\\n");
    } else if x == '"' {
      assert Replace([x], '"', "\\\"") == "\\\"";
      ReplaceAppend("\\", "\"", '\n', "\\n");
    }
  }

  /** The three chained replacements escape each character independently. */
  lemma {:induction false} EscapeBodyPerChar(v: string)
    ensures EscapeBody(v) == EscapeAll(v)
  {
    if v != [] {
      assert v == [v[0]] + v[1..];
      EscapeBodyAppend([v[0]], v[1..]);
      EscapeBodyChar(v[0]);
      EscapeBodyPerChar(v[1..]);
    }
  }

  /** Undoes one escape: `\n` becomes a newline, `\x` becomes `x`. */
  function UnescapeChar(c: char): char
  {
    if c == 'n' then '\n' else c
  }

  /** Reverses the three escapes, reading the text left to right. */
  function Unescape(t: string): string
    decreases |t|
  {
    if t == [] then []
    else if t[0] == '\\' && |t| >= 2 then [UnescapeChar(t[1])] + Unescape(t[2..])
    else [t[0]] + Unescape(t[1..])
  }

  lemma {:induction false} UnescapeEscapeAll(v: string)
    ensures Unescape(EscapeAll(v)) == v
  {
    if v != [] {
      var e := EscapeChar(v[0]);
      var t := EscapeAll(v);
      assert t == e + EscapeAll(v[1..]);
      UnescapeEscapeAll(v[1..]);
      if |e| == 2 {
        assert t[2..] == EscapeAll(v[1..]);
      } else {
        assert t[1..] == EscapeAll(v[1..]);
      }
    }
  }

  /**
   * A literal body with no bare quote, backslash or newline: it reads as a
   * run of plain characters and two-character escapes `\\`, `\"` and `\n`,
   * so a reader of the literal stops only at the closing quote.
   */
  predicate WellEscaped(t: string)
    decreases |t|
  {
    if t == [] then true
    else if t[0] == '\\' then |t| >= 2 && t[1] in "\\\"n" && WellEscaped(t[2..])
    else t[0] !in "\"\n" && WellEscaped(t[1..])
  }

  /** The reference escape leaves no bare quote, backslash or newline behind. */
  lemma {:induction false} EscapeAllWellEscaped(v: string)
    ensures WellEscaped(EscapeAll(v))
  {
    if v != [] {
      var e := EscapeChar(v[0]);
      var t := EscapeAll(v);
      assert t == e + EscapeAll(v[1..]);
      EscapeAllWellEscaped(v[1..]);
      if |e| == 2 {
        assert t[2..] == EscapeAll(v[1..]);
      } else {
        assert t[1..] == EscapeAll(v[1..]);
      }
    }
  }

  /**
   * `escape_string`: `None` becomes the empty literal `""`; otherwise the
   * per-character escape between double quotes, which never holds a raw
   * newline or a bare quote and from which `Unescape` recovers the value
   * exactly.
   */
  function EscapeString(value: Option<string>): (r: string)
    ensures value.None? ==> r == "\"\""
    ensures value.Some? ==> r == "\"" + EscapeAll(value.value) + "\""
    ensures value.Some? ==> WellEscaped(r[1..|r| - 1])
    ensures value.Some? ==> Unescape(r[1..|r| - 1]) == value.value
    ensures '\n' !in r
  {
    if value.None? then "\"\""
    else
      var inner := EscapeBody(value.value);
      EscapeBodyPerChar(value.value);
      UnescapeEscapeAll(value.value);
      EscapeAllWellEscaped(value.value);
      var r := "\"" + inner + "\"";
      assert r[1..|r| - 1] == inner;
      r
  }

  // ---------------------------------------------------------------------
  // Router resource names
  // ---------------------------------------------------------------------

  function DigitChar(d: nat): (c: char)
    requires d < 10
    ensures IsDigit(c)
  {
    ('0' as int + d) as char
  }

  /** `str(n)`: the decimal digits of `n`, without leading zeros. */
  function Decimal(n: nat): (s: string)
    ensures s != []
    ensures forall i :: 0 <= i < |s| ==> IsDigit(s[i])
  {
    if n < 10 then [DigitChar(n)] else Decimal(n / 10) + [DigitChar(n % 10)]
  }

  /** The value of a string of decimal digits. */
  function ParseDecimal(s: string): nat
  {
    if s == [] then 0
    else 10 * ParseDecimal(s[..|s| - 1]) + (if IsDigit(s[|s| - 1]) then s[|s| - 1] as int - '0' as int else 0)
  }

  lemma {:induction false} ParseDecimalOfDecimal(n: nat)
    ensures ParseDecimal(Decimal(n)) == n
  {
    if n >= 10 {
      var s := Decimal(n);
      assert s[..|s| - 1] == Decimal(n / 10);
      ParseDecimalOfDecimal(n / 10);
    }
  }

  /** The resource name of the router that is the `k`-th with base name `base`. */
  function Suffixed(base: string, k: nat): string
  {
    if k <= 1 then base else base + "_" + Decimal(k)
  }

  /** Distinct occurrence numbers of one base name give distinct resource names. */
  lemma SuffixedInjective(base: string, j: nat, k: nat)
    requires 1 <= j < k
    ensures Suffixed(base, j) != Suffixed(base, k)
  {
    if j >= 2 {
      var sj, sk := Suffixed(base, j), Suffixed(base, k);
      if sj == sk {
        assert |Decimal(j)| == |Decimal(k)|;
        assert Decimal(j) == sj[|base| + 1..];
        assert Decimal(k) == sk[|base| + 1..];
        ParseDecimalOfDecimal(j);
        ParseDecimalOfDecimal(k);
      }
    }
  }

  /**
   * The base name of each router, in order. The numbering below takes the
   * sanitizer as a parameter; the generator passes `SanitizeName`.
   */
  function Bases(routerNames: seq<string>, sanitize: string -> string): (bases: seq<string>)
    ensures |bases| == |routerNames|
  {
    if routerNames == [] then []
    else Bases(routerNames[..|routerNames| - 1], sanitize) + [sanitize(routerNames[|routerNames| - 1])]
  }

  lemma {:induction false} BasesAt(routerNames: seq<string>, sanitize: string -> string, i: nat)
    requires i < |routerNames|
    ensures Bases(routerNames, sanitize)[i] == sanitize(routerNames[i])
  {
    var init := routerNames[..|routerNames| - 1];
    if i < |init| {
      BasesAt(init, sanitize, i);
    }
  }

  /** How many times `b` occurs in `s`. */
  function CountOf(s: seq<string>, b: string): (n: nat)
    ensures n <= |s|
  {
    if s == [] then 0 else CountOf(s[..|s| - 1], b) + (if s[|s| - 1] == b then 1 else 0)
  }

  /** The last element of a non-empty sequence is counted at least once. */
  lemma CountOfLast(s: seq<string>)
    requires s != []
    ensures CountOf(s, s[|s| - 1]) >= 1
  {
  }

  /** The resource name of each router given the base names: the k-th router with a base gets `Suffixed(base, k)`. */
  function SuffixedNames(bases: seq<string>): (names: seq<string>)
    ensures |names| == |bases|
  {
    if bases == [] then []
    else
      var b := bases[|bases| - 1];
      SuffixedNames(bases[..|bases| - 1]) + [Suffixed(b, CountOf(bases, b))]
  }

  /** The resource name given to each router, in order. */
  function ResourceNamesOf(routerNames: seq<string>, sanitize: string -> string): (names: seq<string>)
    ensures |names| == |routerNames|
  {
    SuffixedNames(Bases(routerNames, sanitize))
  }

  /**
   * The naming loop of the router generator: a counter per base name; the
   * first router with a base name gets the bare base, the k-th gets `base_k`.
   */
  method ResourceNames(routerNames: seq<string>, sanitize: string -> string) returns (names: seq<string>)
    ensures names == ResourceNamesOf(routerNames, sanitize)
  {
    var counts: map<string, nat> := map[];
    names := [];
    ghost var bases: seq<string> := [];
    for i := 0 to |routerNames|
      invariant bases == Bases(routerNames[..i], sanitize)
      invariant names == SuffixedNames(bases)
      invariant forall b :: b in counts ==> counts[b] == CountOf(bases, b) >= 1
      invariant forall b :: b !in counts ==> CountOf(bases, b) == 0
    {
      var base := sanitize(routerNames[i]);
      assert routerNames[..i + 1][..i] == routerNames[..i];
      assert (bases + [base])[..|bases|] == bases;
      var name;
      if base in counts {
        counts := counts[base := counts[base] + 1];
        name := base + "_" + Decimal(counts[base]);
      } else {
        counts := counts[base := 1];
        name := base;
      }
      bases := bases + [base];
      names := names + [name];
    }
    assert routerNames[..|routerNames|] == routerNames;
  }

  /** Position `i` of the numbering: the base of router `i`, numbered by its occurrences up to `i`. */
  lemma {:induction false} SuffixedNamesAt(bases: seq<string>, i: nat)
    requires i < |bases|
    ensures SuffixedNames(bases)[i] == Suffixed(bases[i], CountOf(bases[..i + 1], bases[i]))
  {
    var init := bases[..|bases| - 1];
    if i < |init| {
      SuffixedNamesAt(init, i);
      assert init[..i + 1] == bases[..i + 1];
    } else {
      assert bases[..i + 1] == bases;
    }
  }

  lemma {:induction false} CountOfAbsent(s: seq<string>, b: string)
    requires forall j :: 0 <= j < |s| ==> s[j] != b
    ensures CountOf(s, b) == 0
  {
    if s != [] {
      CountOfAbsent(s[..|s| - 1], b);
    }
  }

  lemma {:induction false} CountOfMonotone(s: seq<string>, m: nat, b: string)
    requires m <= |s|
    ensures CountOf(s[..m], b) <= CountOf(s, b)
    decreases |s|
  {
    if m < |s| {
      assert s[..|s| - 1][..m] == s[..m];
      CountOfMonotone(s[..|s| - 1], m, b);
    } else {
      assert s[..m] == s;
    }
  }

  /** The first router with a given base name gets the bare base name. */
  lemma FirstGetsBase(routerNames: seq<string>, sanitize: string -> string, i: nat)
    requires i < |routerNames|
    requires forall j :: 0 <= j < i ==> sanitize(routerNames[j]) != sanitize(routerNames[i])
    ensures ResourceNamesOf(routerNames, sanitize)[i] == sanitize(routerNames[i])
  {
    var bases := Bases(routerNames, sanitize);
    SuffixedNamesAt(bases, i);
    BasesAt(routerNames, sanitize, i);
    forall j | 0 <= j < i ensures bases[..i][j] != bases[i] {
      BasesAt(routerNames, sanitize, j);
    }
    assert bases[..i + 1][..i] == bases[..i];
    CountOfAbsent(bases[..i], bases[i]);
  }

  /** The k-th router (k at least 2) with a base name gets the base, `_` and the decimal k. */
  lemma LaterGetsSuffix(routerNames: seq<string>, sanitize: string -> string, i: nat)
    requires i < |routerNames|
    ensures var base := sanitize(routerNames[i]);
      var k := CountOf(Bases(routerNames, sanitize)[..i + 1], base);
      k >= 1 && (k >= 2 ==> ResourceNamesOf(routerNames, sanitize)[i] == base + "_" + Decimal(k))
  {
    var bases := Bases(routerNames, sanitize);
    SuffixedNamesAt(bases, i);
    BasesAt(routerNames, sanitize, i);
    CountOfLast(bases[..i + 1]);
  }

  lemma PrefixCountGrows(bases: seq<string>, i: nat, j: nat)
    requires i < j < |bases| && bases[i] == bases[j]
    ensures CountOf(bases[..i + 1], bases[i]) < CountOf(bases[..j + 1], bases[j])
  {
    assert bases[..j + 1][..j] == bases[..j];
    assert bases[..j][..i + 1] == bases[..i + 1];
    CountOfMonotone(bases[..j], i + 1, bases[i]);
  }

  /** Two routers with the same base name never get the same resource name. */
  lemma ResourceNamesDistinctPerBase(routerNames: seq<string>, sanitize: string -> string, i: nat, j: nat)
    requires i < j < |routerNames|
    requires sanitize(routerNames[i]) == sanitize(routerNames[j])
    ensures ResourceNamesOf(routerNames, sanitize)[i] != ResourceNamesOf(routerNames, sanitize)[j]
  {
    var bases := Bases(routerNames, sanitize);
    BasesAt(routerNames, sanitize, i);
    BasesAt(routerNames, sanitize, j);
    SuffixedNamesAt(bases, i);
    SuffixedNamesAt(bases, j);
    PrefixCountGrows(bases, i, j);
    CountOfLast(bases[..i + 1]);
    SuffixedInjective(bases[i], CountOf(bases[..i + 1], bases[i]), CountOf(bases[..j + 1], bases[j]));
  }

  /** The router names `vr` and `vr_2` are already in sanitized form. */
  lemma SanitizeNameOfVr()
    ensures SanitizeName("vr") == "vr" && SanitizeName("vr_2") == "vr_2"
  {
    SanitizeNameFixed("vr");
    SanitizeNameFixed("vr_2");
  }

  /**
   * Resource names are not unique overall: with a sanitizer that keeps `vr`
   * and `vr_2` as they are (as `SanitizeName` does, by `SanitizeNameOfVr`),
   * a router literally named `vr_2` collides with the second `vr`.
   */
  lemma ResourceNamesCanCollide(sanitize: string -> string)
    requires sanitize("vr") == "vr" && sanitize("vr_2") == "vr_2"
    ensures var names := ResourceNamesOf(["vr", "vr", "vr_2"], sanitize);
      names[1] == names[2] == "vr_2"
  {
    var ns := ["vr", "vr", "vr_2"];
    var bases := Bases(ns, sanitize);
    BasesAt(ns, sanitize, 0);
    BasesAt(ns, sanitize, 1);
    assert bases[..2] == ["vr", "vr"];
    assert ["vr", "vr"][..1] == ["vr"];
    assert CountOf(["vr", "vr"], "vr") == 2;
    assert Decimal(2) == "2";
    LaterGetsSuffix(ns, sanitize, 1);
    FirstGetsBase(ns, sanitize, 2);
  }
}
