/** Mobile release versions, Android version codes and the names of release refs. */
module VersionCodes {
  import opened Options
  import opened Text

  const REF_PREFIX := "refs/openclaw/mobile-releases"

  datatype Platform = Ios | Android

  /** The three components of a version, as digits. */
  datatype Version = Version(year: string, month: string, patch: string)

  /** `[1-9]\d*` */
  predicate IsPositiveInteger(s: string) { |s| > 0 && AllDigits(s) && s[0] != '0' }

  /** `20\d{2}`, `[1-9]\d?` and `[1-9]\d*` */
  predicate WellFormed(v: Version) {
    && |v.year| == 4 && AllDigits(v.year) && v.year[..2] == "20"
    && IsPositiveInteger(v.month) && |v.month| <= 2
    && IsPositiveInteger(v.patch)
  }

  function Show(v: Version): string { v.year + "." + v.month + "." + v.patch }

  /** Reads a version: four characters, a dot, one or two characters, a dot, the rest. */
  function Parse(s: string): Option<Version> {
    if |s| > 6 && s[4] == '.' && s[6] == '.' && WellFormed(Version(s[..4], s[5..6], s[7..]))
    then Some(Version(s[..4], s[5..6], s[7..]))
    else if |s| > 7 && s[4] == '.' && s[7] == '.' && WellFormed(Version(s[..4], s[5..7], s[8..]))
    then Some(Version(s[..4], s[5..7], s[8..]))
    else None
  }

  function PadTwo(s: string): string { if |s| < 2 then "0" + s else s }

  function CodePrefix(v: Version): string { v.year + PadTwo(v.month) + PadTwo(v.patch) }

  predicate ValidCode(v: Version, code: string) {
    && IsPositiveInteger(code)
    && CodePrefix(v) <= code && |code| == |CodePrefix(v)| + 2
    && 1 <= Value(code[|CodePrefix(v)|..]) <= 99
  }

  datatype RefError = InvalidVersion | InvalidBuild | InvalidVersionCode

  function RefBody(platform: Platform): string { if platform.Ios? then "/ios/" else "/android/" }

  function RefName(platform: Platform, version: string, number: string): string {
    REF_PREFIX + RefBody(platform) + (version + "-" + number)
  }

  function RefFor(platform: Platform, version: string, build: Option<string>, versionCode: Option<string>)
    : Result<string, RefError>
  {
    var parsed := Parse(Trim(version));
    if parsed.None? then Err(InvalidVersion)
    else if platform.Ios? then
      var number := if build.Some? then Trim(build.value) else "";
      if IsPositiveInteger(number) then Ok(RefName(platform, Trim(version), number))
      else Err(InvalidBuild)
    else
      var code := if versionCode.Some? then Trim(versionCode.value) else "";
      if IsPositiveInteger(code) && ValidCode(parsed.value, code)
      then Ok(RefName(platform, Trim(version), code))
      else Err(InvalidVersionCode)
  }

  // ----- versions read back

  lemma ParseReadsShow(v: Version)
    requires WellFormed(v)
    ensures Parse(Show(v)) == Some(v)
  {
    var s := Show(v);
    assert s[..4] == v.year && s[4] == '.';
    if |v.month| == 1 {
      assert s[5..6] == v.month && s[6] == '.' && s[7..] == v.patch;
    } else {
      assert s[6] == v.month[1];
      assert s[5..7] == v.month && s[7] == '.' && s[8..] == v.patch;
    }
  }

  lemma ParsedShows(s: string)
    requires Parse(s).Some?
    ensures WellFormed(Parse(s).value) && Show(Parse(s).value) == s
  {
    var v := Parse(s).value;
    if |v.month| == 1 {
      assert s == s[..4] + [s[4]] + s[5..6] + [s[6]] + s[7..];
    } else {
      assert s == s[..4] + [s[4]] + s[5..7] + [s[7]] + s[8..];
    }
  }

  // ----- refs are injective

  function TwoDigits(n: nat): string
    requires n < 100
  {
    [DigitChar(n / 10), DigitChar(n % 10)]
  }

  lemma TwoDigitsRead(s: string)
    requires |s| == 2 && AllDigits(s)
    ensures Value(s) < 100 && s == TwoDigits(Value(s))
  {
    assert s[..1][..0] == "" && s[..1] == [s[0]];
    var a, b := DigitValue(s[0]), DigitValue(s[1]);
    assert Value(s[..1]) == a && Value(s) == 10 * a + b;
    assert (10 * a + b) / 10 == a && (10 * a + b) % 10 == b;
    assert DigitChar(a) == s[0] && DigitChar(b) == s[1];
  }

  lemma TwoDigitsValue(n: nat)
    requires n < 100
    ensures AllDigits(TwoDigits(n)) && Value(TwoDigits(n)) == n
  {
    var s := TwoDigits(n);
    assert s[..1][..0] == "" && s[..1] == [s[0]];
    assert Value(s[..1]) == 10 * Value("") + DigitValue(s[0]) == n / 10;
    assert Value(s) == 10 * Value(s[..1]) + DigitValue(s[1]);
  }

  /** The version codes of a version are exactly its year, its month and patch padded to two digits, and a suffix from 01 to 99. */
  lemma CodesAreExactly(v: Version, code: string)
    requires WellFormed(v)
    ensures ValidCode(v, code) <==> exists n: nat :: 1 <= n <= 99 && code == v.year + PadTwo(v.month) + PadTwo(v.patch) + TwoDigits(n)
  {
    var prefix := CodePrefix(v);
    if ValidCode(v, code) {
      var suffix := code[|prefix|..];
      assert AllDigits(suffix) by { assert forall i :: 0 <= i < |suffix| ==> suffix[i] == code[|prefix| + i]; }
      TwoDigitsRead(suffix);
      assert code == prefix + TwoDigits(Value(suffix));
    }
    if n: nat :| 1 <= n <= 99 && code == prefix + TwoDigits(n) {
      TwoDigitsValue(n);
      assert code[|prefix|..] == TwoDigits(n);
      assert code[0] == v.year[0] && v.year[0] == v.year[..2][0];
    }
  }

  lemma VersionHasNoDash(s: string)
    requires Parse(s).Some?
    ensures Lacks(s, '-')
  {
    ParsedShows(s);
    var v := Parse(s).value;
    assert Lacks(v.year, '-') && Lacks(v.month, '-') && Lacks(v.patch, '-');
  }

  /** The number a ref is named after: the iOS build or the Android version code. */
  function RefNumber(platform: Platform, build: Option<string>, versionCode: Option<string>): string {
    var number := if platform.Ios? then build else versionCode;
    if number.Some? then Trim(number.value) else ""
  }

  lemma RefShape(platform: Platform, version: string, build: Option<string>, versionCode: Option<string>)
    requires RefFor(platform, version, build, versionCode).Ok?
    ensures RefFor(platform, version, build, versionCode).value
         == RefName(platform, Trim(version), RefNumber(platform, build, versionCode))
    ensures Lacks(Trim(version), '-')
  {
    VersionHasNoDash(Trim(version));
  }

  /** This version and this number make a ref of the platform. */
  ghost predicate IsNamed(platform: Platform, v: Version, number: string) {
    WellFormed(v) && IsPositiveInteger(number) && (platform.Android? ==> ValidCode(v, number))
  }

  /** A ref is made, with this name, if and only if the trimmed version is well formed, the trimmed number is a positive integer
      and on Android a code of that version; the name is spelled out. */
  lemma RefIsMadeExactly(platform: Platform, version: string, build: Option<string>, versionCode: Option<string>, ref: string)
    ensures RefFor(platform, version, build, versionCode) == Ok(ref) <==>
              exists v, number :: Trim(version) == Show(v) && RefNumber(platform, build, versionCode) == number
                                  && IsNamed(platform, v, number)
                                  && ref == "refs/openclaw/mobile-releases/" + (if platform.Ios? then "ios" else "android") + "/"
                                            + (Show(v) + "-" + number)
  {
    var number := RefNumber(platform, build, versionCode);
    RefText(platform, Trim(version), number);
    if Parse(Trim(version)).Some? {
      ParsedShows(Trim(version));
    }
    forall v | WellFormed(v) && Trim(version) == Show(v) ensures Parse(Trim(version)) == Some(v) {
      ParseReadsShow(v);
    }
  }

  lemma RefText(platform: Platform, version: string, number: string)
    ensures RefName(platform, version, number)
         == "refs/openclaw/mobile-releases/" + (if platform.Ios? then "ios" else "android") + "/" + (version + "-" + number)
  {
    if platform.Ios? {
      assert REF_PREFIX + "/ios/" == "refs/openclaw/mobile-releases/" + "ios" + "/";
    } else {
      assert REF_PREFIX + "/android/" == "refs/openclaw/mobile-releases/" + "android" + "/";
    }
  }

  lemma PlatformOfRef(p1: Platform, s1: string, p2: Platform, s2: string)
    requires REF_PREFIX + RefBody(p1) + s1 == REF_PREFIX + RefBody(p2) + s2
    ensures p1 == p2
  {
    var r1, r2 := REF_PREFIX + RefBody(p1) + s1, REF_PREFIX + RefBody(p2) + s2;
    assert r1[|REF_PREFIX| + 1] == RefBody(p1)[1] && r2[|REF_PREFIX| + 1] == RefBody(p2)[1];
  }

  /** Two requests name the same ref only if they agree on platform, version and number. */
  lemma RefsAreInjective(
    p1: Platform, v1: string, b1: Option<string>, c1: Option<string>,
    p2: Platform, v2: string, b2: Option<string>, c2: Option<string>)
    requires RefFor(p1, v1, b1, c1).Ok? && RefFor(p1, v1, b1, c1) == RefFor(p2, v2, b2, c2)
    ensures p1 == p2 && Trim(v1) == Trim(v2) && RefNumber(p1, b1, c1) == RefNumber(p2, b2, c2)
  {
    RefShape(p1, v1, b1, c1);
    RefShape(p2, v2, b2, c2);
    var s1 := Trim(v1) + "-" + RefNumber(p1, b1, c1);
    var s2 := Trim(v2) + "-" + RefNumber(p2, b2, c2);
    PlatformOfRef(p1, s1, p2, s2);
    CutPrefix(REF_PREFIX + RefBody(p1), s1, s2);
    SplitAtFirst('-', Trim(v1), RefNumber(p1, b1, c1), Trim(v2), RefNumber(p2, b2, c2));
  }

  // ----- a code belongs to one version

  lemma PadTwoInjective(a: string, b: string)
    requires IsPositiveInteger(a) && IsPositiveInteger(b) && PadTwo(a) == PadTwo(b)
    ensures a == b
  {
    assert |a| < 2 ==> PadTwo(a)[0] == '0' && PadTwo(a)[1..] == a;
    assert |b| < 2 ==> PadTwo(b)[0] == '0' && PadTwo(b)[1..] == b;
  }

  lemma CodeParts(v: Version, code: string)
    requires WellFormed(v) && ValidCode(v, code)
    ensures |code| >= 10
    ensures code[..4] == v.year && code[4..6] == PadTwo(v.month) && code[6..|code| - 2] == PadTwo(v.patch)
  {
    var p := CodePrefix(v);
    assert code[..|p|] == p;
    assert code[..4] == p[..4] && code[4..6] == p[4..6] && code[6..|code| - 2] == p[6..];
  }

  /** Each Android version code belongs to exactly one version. */
  lemma CodeDeterminesVersion(v1: Version, v2: Version, code: string)
    requires WellFormed(v1) && WellFormed(v2) && ValidCode(v1, code) && ValidCode(v2, code)
    ensures v1 == v2
  {
    CodeParts(v1, code);
    CodeParts(v2, code);
    PadTwoInjective(v1.month, v2.month);
    PadTwoInjective(v1.patch, v2.patch);
  }

  // ----- the number a code denotes

  function Pow10(n: nat): nat { if n == 0 then 1 else 10 * Pow10(n - 1) }

  /** Shifting a sum by one digit. */
  lemma OneMoreDigit(x: nat, p: nat, y: nat, d: nat)
    ensures 10 * (x * p + y) + d == x * (10 * p) + (10 * y + d)
  {
    TimesTen(x, p);
  }

  lemma TimesTen(x: nat, p: nat)
    ensures 10 * (x * p) == x * (10 * p)
  {
  }

  lemma AtLeastOnce(d: nat, p: nat)
    requires d >= 1
    ensures d * p >= p
  {
  }

  lemma {:induction false} ValueAppend(a: string, b: string)
    requires AllDigits(a) && AllDigits(b)
    ensures Value(a + b) == Value(a) * Pow10(|b|) + Value(b)
  {
    if b == "" {
      assert a + b == a;
    } else {
      var init, d := b[..|b| - 1], DigitValue(b[|b| - 1]);
      assert (a + b)[..|a + b| - 1] == a + init;
      ValueAppend(a, init);
      OneMoreDigit(Value(a), Pow10(|init|), Value(init), d);
    }
  }

  lemma {:induction false} ValueBelow(s: string)
    requires AllDigits(s)
    ensures Value(s) < Pow10(|s|)
  {
    if s != "" {
      ValueBelow(s[..|s| - 1]);
    }
  }

  lemma ValuePadTwo(s: string)
    requires AllDigits(s) && 1 <= |s|
    ensures AllDigits(PadTwo(s)) && Value(PadTwo(s)) == Value(s)
  {
    if |s| < 2 {
      ValueAppend("0", s);
      assert "0"[..0] == "";
      assert Value("0") == 0;
    }
  }

  lemma AppendTwoDigits(a: string, b: string)
    requires AllDigits(a) && AllDigits(b) && |b| == 2
    ensures Value(a + b) == 100 * Value(a) + Value(b) && Value(b) < 100
  {
    assert Pow10(2) == 10 * Pow10(1) == 100 * Pow10(0);
    ValueAppend(a, b);
    ValueBelow(b);
  }

  /** The suffix of a valid code. */
  function Suffix(code: string): nat
    requires |code| >= 2 && AllDigits(code)
  {
    Value(code[|code| - 2..])
  }

  /** With a patch number up to 99 a code is year, month, patch and suffix in base 100. */
  lemma {:induction false} CodeValue(v: Version, code: string)
    requires WellFormed(v) && ValidCode(v, code) && |v.patch| <= 2
    ensures |code| == 10
    ensures Value(code) == ((Value(v.year) * 100 + Value(v.month)) * 100 + Value(v.patch)) * 100 + Suffix(code)
    ensures Value(v.month) < 100 && Value(v.patch) < 100 && Suffix(code) < 100
    ensures 2000 <= Value(v.year) < 2100
  {
    CodeParts(v, code);
    ValuePadTwo(v.month);
    ValuePadTwo(v.patch);
    AppendTwoDigits(v.year, PadTwo(v.month));
    AppendTwoDigits(v.year + PadTwo(v.month), PadTwo(v.patch));
    assert code == CodePrefix(v) + code[8..];
    AppendTwoDigits(CodePrefix(v), code[8..]);
    assert v.year == "20" + v.year[2..];
    AppendTwoDigits("20", v.year[2..]);
    assert Value("20") == 20 by {
      assert "20"[..1] == "2" && "2"[..0] == "";
    }
  }

  /** Lexicographic order of year, month, patch and suffix. */
  predicate Earlier(v1: Version, code1: string, v2: Version, code2: string)
    requires WellFormed(v1) && WellFormed(v2) && ValidCode(v1, code1) && ValidCode(v2, code2)
  {
    var y1, m1, p1, y2, m2, p2 := Value(v1.year), Value(v1.month), Value(v1.patch), Value(v2.year), Value(v2.month), Value(v2.patch);
    || y1 < y2
    || (y1 == y2 && m1 < m2)
    || (y1 == y2 && m1 == m2 && p1 < p2)
    || (y1 == y2 && m1 == m2 && p1 == p2 && Suffix(code1) < Suffix(code2))
  }

  /** The order of year and month alone. */
  predicate InEarlierMonth(v1: Version, v2: Version)
    requires WellFormed(v1) && WellFormed(v2)
  {
    Value(v1.year) < Value(v2.year) || (Value(v1.year) == Value(v2.year) && Value(v1.month) < Value(v2.month))
  }

  /** A code is year and month, patch and suffix, the patch in as many digits as it takes. */
  lemma LongCodeValue(v: Version, code: string)
    requires WellFormed(v) && ValidCode(v, code)
    ensures Value(code) == ((Value(v.year) * 100 + Value(v.month)) * Pow10(|PadTwo(v.patch)|) + Value(v.patch)) * 100 + Suffix(code)
    ensures Value(v.month) < 100 && Value(v.patch) < Pow10(|PadTwo(v.patch)|) && Suffix(code) < 100
  {
    PrefixValue(v);
    assert code == CodePrefix(v) + code[|code| - 2..];
    AppendTwoDigits(CodePrefix(v), code[|code| - 2..]);
  }

  lemma PrefixValue(v: Version)
    requires WellFormed(v)
    ensures AllDigits(CodePrefix(v))
    ensures Value(CodePrefix(v)) == (Value(v.year) * 100 + Value(v.month)) * Pow10(|PadTwo(v.patch)|) + Value(v.patch)
    ensures Value(v.month) < 100 && Value(v.patch) < Pow10(|PadTwo(v.patch)|)
  {
    ValuePadTwo(v.month);
    ValuePadTwo(v.patch);
    AppendTwoDigits(v.year, PadTwo(v.month));
    ValueBelow(PadTwo(v.patch));
    ValueAppend(v.year + PadTwo(v.month), PadTwo(v.patch));
  }

  /** Two digits in some base are ordered by the first and then by the second. */
  lemma TwoDigitOrder(a1: nat, d1: nat, a2: nat, d2: nat, base: nat)
    requires d1 < base && d2 < base
    ensures a1 * base + d1 < a2 * base + d2 <==> a1 < a2 || (a1 == a2 && d1 < d2)
  {
    if a1 < a2 {
      FullDigit(a1, a2, base);
    } else if a2 < a1 {
      FullDigit(a2, a1, base);
    }
  }

  lemma FullDigit(a: nat, b: nat, base: nat)
    requires a < b
    ensures a * base + base <= b * base
  {
    assert b * base == a * base + (b - a) * base;
    AtLeastOnce(b - a, base);
  }

  lemma {:induction false} SameLengthOrder(v1: Version, code1: string, v2: Version, code2: string)
    requires WellFormed(v1) && WellFormed(v2) && ValidCode(v1, code1) && ValidCode(v2, code2)
    requires |PadTwo(v1.patch)| == |PadTwo(v2.patch)|
    ensures Value(code1) < Value(code2) <==> Earlier(v1, code1, v2, code2)
  {
    LongCodeValue(v1, code1);
    LongCodeValue(v2, code2);
    var a1, a2 := Value(v1.year) * 100 + Value(v1.month), Value(v2.year) * 100 + Value(v2.month);
    TwoDigitOrder(a1, Value(v1.patch), a2, Value(v2.patch), Pow10(|PadTwo(v1.patch)|));
    TwoDigitOrder(a2, Value(v2.patch), a1, Value(v1.patch), Pow10(|PadTwo(v1.patch)|));
  }

  /** A code with a longer patch is the larger number, whatever the year and month, and its patch is larger too. */
  lemma {:induction false} LongerIsLarger(v1: Version, code1: string, v2: Version, code2: string)
    requires WellFormed(v1) && WellFormed(v2) && ValidCode(v1, code1) && ValidCode(v2, code2)
    requires |PadTwo(v1.patch)| < |PadTwo(v2.patch)|
    ensures Value(code1) < Value(code2) && Value(v1.patch) < Value(v2.patch)
  {
    CodeParts(v1, code1);
    CodeParts(v2, code2);
    ValueBelow(code1);
    assert code2[0] == '2' by { assert v2.year[..2][0] == v2.year[0]; }
    LeadingTwo(code2);
    Pow10Monotone(|code1|, |code2| - 1);
    ValuePadTwo(v1.patch);
    ValueBelow(PadTwo(v1.patch));
    LeadingDigit(v2.patch);
    Pow10Monotone(|PadTwo(v1.patch)|, |v2.patch| - 1);
  }

  lemma LeadingDigit(s: string)
    requires IsPositiveInteger(s)
    ensures Value(s) >= Pow10(|s| - 1)
  {
    assert s == s[..1] + s[1..];
    assert s[..1][..0] == "";
    ValueAppend(s[..1], s[1..]);
    AtLeastOnce(Value(s[..1]), Pow10(|s| - 1));
  }

  /** The numeric order of two codes is the order of the releases if and only if their patches are equally long when
      padded, or the code with the longer patch is not of an earlier month. */
  lemma OrderAgreesExactly(v1: Version, code1: string, v2: Version, code2: string)
    requires WellFormed(v1) && WellFormed(v2) && ValidCode(v1, code1) && ValidCode(v2, code2)
    ensures (Value(code1) < Value(code2) <==> Earlier(v1, code1, v2, code2)) <==>
              var n1, n2 := |PadTwo(v1.patch)|, |PadTwo(v2.patch)|;
              n1 == n2 || (n1 < n2 && !InEarlierMonth(v2, v1)) || (n1 > n2 && !InEarlierMonth(v1, v2))
  {
    if |PadTwo(v1.patch)| == |PadTwo(v2.patch)| {
      SameLengthOrder(v1, code1, v2, code2);
    } else if |PadTwo(v1.patch)| < |PadTwo(v2.patch)| {
      LongerIsLarger(v1, code1, v2, code2);
    } else {
      LongerIsLarger(v2, code2, v1, code1);
    }
  }

  /** In particular, for patch numbers up to 99 the numeric order of codes is the order of releases. */
  lemma CodeOrderIsReleaseOrder(v1: Version, code1: string, v2: Version, code2: string)
    requires WellFormed(v1) && WellFormed(v2) && ValidCode(v1, code1) && ValidCode(v2, code2)
    requires |v1.patch| <= 2 && |v2.patch| <= 2
    ensures Value(code1) < Value(code2) <==> Earlier(v1, code1, v2, code2)
  {
    OrderAgreesExactly(v1, code1, v2, code2);
  }

  lemma {:induction false} Pow10Monotone(m: nat, n: nat)
    requires m <= n
    ensures Pow10(m) <= Pow10(n)
  {
    if m < n {
      Pow10Monotone(m, n - 1);
    }
  }

  /** A code fits a signed 32-bit integer, as Android demands, exactly when the patch number is at most 99. */
  lemma {:induction false} CodeFitsInt32(v: Version, code: string)
    requires WellFormed(v) && ValidCode(v, code)
    ensures Value(code) < 0x8000_0000 <==> |v.patch| <= 2
    ensures |v.patch| <= 2 <==> Value(v.patch) <= 99
  {
    LongNumberIsLarge(v.patch);
    if |v.patch| <= 2 {
      CodeValue(v, code);
    } else {
      CodeParts(v, code);
      assert code[0] == '2' by { assert v.year[..2][0] == v.year[0]; }
      LeadingTwo(code);
      Pow10Monotone(10, |code| - 1);
      assert Pow10(10) == 10_000_000_000;
    }
  }

  lemma LongNumberIsLarge(s: string)
    requires IsPositiveInteger(s)
    ensures |s| <= 2 <==> Value(s) <= 99
  {
    var rest := s[1..];
    assert s == s[..1] + rest;
    assert s[..1][..0] == "";
    ValueAppend(s[..1], rest);
    ValueBelow(s);
    assert Pow10(2) == 100 by { assert Pow10(1) == 10; }
    if |s| > 2 {
      Pow10Monotone(2, |rest|);
      AtLeastOnce(Value(s[..1]), Pow10(|rest|));
    } else {
      Pow10Monotone(|s|, 2);
    }
  }

  lemma LeadingTwo(s: string)
    requires AllDigits(s) && |s| > 0 && s[0] == '2'
    ensures Value(s) >= 2 * Pow10(|s| - 1)
  {
    assert s == s[..1] + s[1..];
    assert s[..1][..0] == "";
    ValueAppend(s[..1], s[1..]);
  }

  lemma ExampleCodes()
    ensures ValidCode(Version("2025", "1", "100"), "20250110001")
    ensures ValidCode(Version("2026", "1", "1"), "2026010101")
  {
    var a, b := "20250110001", "2026010101";
    assert CodePrefix(Version("2025", "1", "100")) == "202501100" && a[..9] == "202501100" && a[9..] == "01";
    assert CodePrefix(Version("2026", "1", "1")) == "20260101" && b[..8] == "20260101" && b[8..] == "01";
    assert Value("01") == 1 by { assert "01"[..1] == "0" && "0"[..0] == ""; }
  }

  /** Beyond 99 the order breaks: a release of 2026 gets a smaller code than patch 100 of 2025. */
  lemma LongPatchBreaksOrder()
    ensures var older, newer := Version("2025", "1", "100"), Version("2026", "1", "1");
            && WellFormed(older) && WellFormed(newer)
            && ValidCode(older, "20250110001") && ValidCode(newer, "2026010101")
            && Value("20250110001") > Value("2026010101")
  {
    ExampleCodes();
    LeadingTwo("20250110001");
    ValueBelow("2026010101");
  }
}
