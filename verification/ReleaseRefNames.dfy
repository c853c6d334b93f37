/** Names of mobile release refs and the version numbers inside them (`mobileReleaseRefFor`). */
module ReleaseRefNames {
  import opened Wrappers
  import opened Text

  const REF_PREFIX := "refs/grokbot/mobile-releases"

  datatype Platform = Ios | Android

  datatype Error = InvalidVersion | InvalidNumber | InvalidVersionCode

  datatype Result<+T> = Ok(value: T) | Err(error: Error)

  predicate AllDigits(s: string) { forall i :: 0 <= i < |s| ==> IsDigit(s[i]) }

  predicate PositiveInteger(s: string) { s != "" && AllDigits(s) && s[0] != '0' }

  // ------------------------------------------------------------------ versions

  datatype Version = Version(year: string, month: string, patch: string) {
    predicate Valid() {
      && |year| == 4 && year[..2] == "20" && AllDigits(year)
      && PositiveInteger(month) && |month| <= 2
      && PositiveInteger(patch)
    }

    function Text(): string { year + "." + month + "." + patch }
  }

  /** The three groups of `VERSION_RE`. */
  function ParseVersion(s: string): Option<Version> {
    if |s| < 7 || s[4] != '.' then None
    else
      var monthEnd := if s[6] == '.' then 6 else 7;
      if monthEnd >= |s| || s[monthEnd] != '.' then None
      else
        var v := Version(s[..4], s[5..monthEnd], s[monthEnd + 1..]);
        if v.Valid() then Some(v) else None
  }

  /** The pattern accepts exactly the texts of valid versions, and each in one way. */
  lemma ParseVersionInvertsText(s: string, v: Version)
    ensures ParseVersion(s) == Some(v) <==> v.Valid() && s == v.Text()
  {
    if v.Valid() && s == v.Text() {
      assert s[4] == '.' && s[5..5 + |v.month|] == v.month && s[5 + |v.month|] == '.';
      assert s[6] == '.' <==> |v.month| == 1 by {
        if |v.month| == 2 { assert s[6] == v.month[1]; }
      }
      assert s[..4] == v.year && s[5 + |v.month| + 1..] == v.patch;
    }
    if ParseVersion(s) == Some(v) {
      assert s == v.Text();
    }
  }

  function ValidateVersion(version: string): Result<Version> {
    var parsed := ParseVersion(Trim(version));
    if parsed.None? then Err(InvalidVersion) else Ok(parsed.value)
  }

  function ValidatePositiveInteger(value: Option<string>): Result<string> {
    var trimmed := Trim(value.GetOr(""));
    if PositiveInteger(trimmed) then Ok(trimmed) else Err(InvalidNumber)
  }

  // ------------------------------------------------------------------ Android version codes

  function Pad2(s: string): string { if |s| == 0 then "00" else if |s| == 1 then "0" + s else s }

  function VersionCodePrefix(v: Version): string { v.year + Pad2(v.month) + Pad2(v.patch) }

  function ValidateVersionCode(v: Version, versionCode: Option<string>): Result<string> {
    var code := ValidatePositiveInteger(versionCode);
    if code.Err? then code
    else
      var prefix := VersionCodePrefix(v);
      if !StartsWith(code.value, prefix) || |code.value| != |prefix| + 2 then Err(InvalidVersionCode)
      else
        var suffix := Value(code.value[|prefix|..]);
        if suffix < 1 || suffix > 99 then Err(InvalidVersionCode) else code
  }

  /** Accepted codes are the version's prefix followed by 01 to 99. */
  lemma VersionCodeAccepted(v: Version, versionCode: string, code: string)
    requires v.Valid()
    ensures ValidateVersionCode(v, Some(versionCode)) == Ok(code) <==>
            && code == Trim(versionCode)
            && exists n: nat :: 1 <= n <= 99 && code == VersionCodePrefix(v) + Pad2(Decimal(n))
  {
    var prefix := VersionCodePrefix(v);
    assert prefix[0] == v.year[..2][0] == '2';
    if ValidateVersionCode(v, Some(versionCode)) == Ok(code) {
      var suffix := code[|prefix|..];
      TwoDigits(suffix);
      assert code == prefix + suffix;
    }
    forall n: nat | 1 <= n <= 99 && code == prefix + Pad2(Decimal(n)) && code == Trim(versionCode)
      ensures ValidateVersionCode(v, Some(versionCode)) == Ok(code)
    {
      PadDigits(n);
      assert AllDigits(code) by {
        forall i | 0 <= i < |code| ensures IsDigit(code[i]) {
          PrefixDigits(v);
          assert code[i] == if i < |prefix| then prefix[i] else Pad2(Decimal(n))[i - |prefix|];
        }
      }
      assert code[|prefix|..] == Pad2(Decimal(n));
    }
  }

  lemma PrefixDigits(v: Version)
    requires v.Valid()
    ensures AllDigits(VersionCodePrefix(v))
  {
  }

  lemma PadDigits(n: nat)
    requires n <= 99
    ensures |Pad2(Decimal(n))| == 2 && AllDigits(Pad2(Decimal(n))) && Value(Pad2(Decimal(n))) == n
  {
    var s := Pad2(Decimal(n));
    if n >= 10 {
      assert Decimal(n / 10) == [Digit(n / 10)];
    }
    assert s[0] == Digit(n / 10) && s[1] == Digit(n % 10);
    assert s[..1] == [s[0]] && s[..1][..0] == "";
    assert Value(s[..1]) == n / 10;
  }

  lemma TwoDigits(s: string)
    requires |s| == 2 && AllDigits(s)
    ensures Value(s) <= 99 && s == Pad2(Decimal(Value(s)))
  {
    assert s[..1] == [s[0]] && s[..1][..0] == "";
    assert Value(s[..1]) == DigitValue(s[0]);
    var n := Value(s);
    assert n / 10 == DigitValue(s[0]) && n % 10 == DigitValue(s[1]);
    assert Digit(DigitValue(s[0])) == s[0] && Digit(DigitValue(s[1])) == s[1];
    PadDigits(n);
    if n >= 10 { assert Decimal(n / 10) == [Digit(n / 10)]; }
    assert Pad2(Decimal(n)) == [s[0], s[1]];
    assert s == [s[0], s[1]];
  }

  /** No code is accepted for two versions. */
  lemma VersionCodeFixesVersion(v: Version, w: Version, versionCode: Option<string>)
    requires v.Valid() && w.Valid()
    requires ValidateVersionCode(v, versionCode).Ok? && ValidateVersionCode(w, versionCode).Ok?
    ensures v == w
  {
    var code := ValidateVersionCode(v, versionCode).value;
    var p, q := VersionCodePrefix(v), VersionCodePrefix(w);
    assert p == code[..|code| - 2] == q;
    assert p[..4] == v.year && q[..4] == w.year;
    assert p[4..6] == Pad2(v.month) && q[4..6] == Pad2(w.month);
    assert p[6..] == Pad2(v.patch) && q[6..] == Pad2(w.patch);
    Pad2Injective(v.month, w.month);
    Pad2Injective(v.patch, w.patch);
  }

  lemma Pad2Injective(s: string, t: string)
    requires PositiveInteger(s) && PositiveInteger(t) && Pad2(s) == Pad2(t)
    ensures s == t
  {
    if |s| == 1 { assert Pad2(s)[0] == '0' && Pad2(s)[1] == s[0]; }
    if |t| == 1 { assert Pad2(t)[0] == '0' && Pad2(t)[1] == t[0]; }
  }

  // ------------------------------------------------------------------ refs

  function RefText(platform: Platform, version: string, number: string): string {
    REF_PREFIX + (if platform.Ios? then "/ios/" else "/android/") + version + "-" + number
  }

  function ValidateNumber(platform: Platform, v: Version, build: Option<string>,
                          versionCode: Option<string>): Result<string> {
    if platform.Ios? then ValidatePositiveInteger(build) else ValidateVersionCode(v, versionCode)
  }

  function MobileReleaseRefFor(platform: Platform, version: string, build: Option<string>,
                               versionCode: Option<string>): Result<string> {
    var v := ValidateVersion(version);
    if v.Err? then Err(v.error)
    else
      var number := ValidateNumber(platform, v.value, build, versionCode);
      if number.Err? then Err(number.error) else Ok(RefText(platform, v.value.Text(), number.value))
  }

  // ------------------------------------------------------------------ which requests get which ref

  /** Digits without a leading zero. */
  ghost predicate IsCount(s: string) {
    s != "" && s[0] != '0' && forall i :: 0 <= i < |s| ==> '0' <= s[i] <= '9'
  }

  /** A year from 2000 to 2099, a month of one or two digits, and a patch number. */
  ghost predicate IsVersion(v: Version) {
    && |v.year| == 4 && v.year[0] == '2' && v.year[1] == '0' && '0' <= v.year[2] <= '9' && '0' <= v.year[3] <= '9'
    && IsCount(v.month) && |v.month| <= 2 && IsCount(v.patch)
  }

  ghost function Padded(s: string): string { if |s| == 1 then "0" + s else s }

  /** The version's digits, padded to two each, and a number from 01 to 99. */
  ghost predicate IsVersionCode(v: Version, code: string) {
    exists n: nat :: 1 <= n <= 99 && code == v.year + Padded(v.month) + Padded(v.patch) + Padded(Decimal(n))
  }

  ghost predicate Asks(v: Version, version: string) {
    IsVersion(v) && Trim(version) == v.year + "." + v.month + "." + v.patch
  }

  lemma ValidIff(v: Version)
    ensures v.Valid() <==> IsVersion(v)
    ensures v.Text() == v.year + "." + v.month + "." + v.patch
    ensures forall s :: PositiveInteger(s) <==> IsCount(s)
  {
    assert |v.year| == 4 ==> (v.year[..2] == "20" <==> v.year[0] == '2' && v.year[1] == '0');
  }

  lemma VersionDecides(version: string, v: Version)
    ensures ValidateVersion(version) == Ok(v) <==> Asks(v, version)
    ensures ValidateVersion(version).Err? <==> forall w :: !Asks(w, version)
    ensures ValidateVersion(version).Err? ==> ValidateVersion(version).error == InvalidVersion
  {
    forall w ensures ParseVersion(Trim(version)) == Some(w) <==> Asks(w, version) {
      ParseVersionInvertsText(Trim(version), w);
      ValidIff(w);
    }
    hide ParseVersion, Asks, Trim;
    var parsed := ParseVersion(Trim(version));
    if parsed.Some? { assert Asks(parsed.value, version); }
  }

  lemma PrefixedIffVersionCode(v: Version, code: string)
    requires IsVersion(v)
    ensures IsVersionCode(v, code) <==>
            exists n: nat :: 1 <= n <= 99 && code == VersionCodePrefix(v) + Pad2(Decimal(n))
  {
    assert VersionCodePrefix(v) == v.year + Padded(v.month) + Padded(v.patch);
    forall n: nat ensures Pad2(Decimal(n)) == Padded(Decimal(n)) {}
    hide VersionCodePrefix, Pad2, Padded, Decimal, IsVersion;
    if IsVersionCode(v, code) {
      var n: nat :| 1 <= n <= 99 && code == v.year + Padded(v.month) + Padded(v.patch) + Padded(Decimal(n));
      assert code == VersionCodePrefix(v) + Pad2(Decimal(n));
    }
  }

  lemma AbsentIsBlank(v: Version, versionCode: Option<string>)
    ensures ValidateVersionCode(v, versionCode) == ValidateVersionCode(v, Some(versionCode.GetOr("")))
    ensures var r := ValidateVersionCode(v, versionCode);
            r.Err? ==>
              r.error == if PositiveInteger(Trim(versionCode.GetOr(""))) then InvalidVersionCode else InvalidNumber
  {
    hide Trim, VersionCodePrefix, Value, AllDigits;
  }

  lemma CodeDecides(v: Version, versionCode: Option<string>, code: string)
    requires IsVersion(v)
    ensures ValidateVersionCode(v, versionCode) == Ok(code) <==>
            code == Trim(versionCode.GetOr("")) && IsVersionCode(v, code)
    ensures ValidateVersionCode(v, versionCode).Err? ==>
              ValidateVersionCode(v, versionCode).error ==
              if IsCount(Trim(versionCode.GetOr(""))) then InvalidVersionCode else InvalidNumber
  {
    hide *;
    ValidIff(v);
    AbsentIsBlank(v, versionCode);
    VersionCodeAccepted(v, versionCode.GetOr(""), code);
    PrefixedIffVersionCode(v, code);
  }

  /** The number at the end of a ref: the build on iOS, the version code on Android. */
  ghost predicate IsNumber(platform: Platform, v: Version, build: Option<string>, versionCode: Option<string>,
                           number: string) {
    match platform
    case Ios => number == Trim(build.GetOr("")) && IsCount(number)
    case Android => number == Trim(versionCode.GetOr("")) && IsVersionCode(v, number)
  }

  lemma NumberDecides(platform: Platform, v: Version, build: Option<string>, versionCode: Option<string>,
                      number: string)
    requires IsVersion(v)
    ensures ValidateNumber(platform, v, build, versionCode) == Ok(number) <==>
            IsNumber(platform, v, build, versionCode, number)
  {
    ValidIff(v);
    CodeDecides(v, versionCode, number);
    hide Trim, IsCount, PositiveInteger, IsVersionCode, ValidateVersionCode;
  }

  /**
   * A request gets a ref exactly if its version is one and its number fits the platform, up to surrounding blanks; the
   * ref is made of the platform, the version and the number.
   */
  lemma RefDecides(platform: Platform, version: string, build: Option<string>, versionCode: Option<string>, ref: string)
    ensures MobileReleaseRefFor(platform, version, build, versionCode) == Ok(ref) <==>
            exists v, number ::
              && Asks(v, version) && IsNumber(platform, v, build, versionCode, number)
              && ref == "refs/grokbot/mobile-releases/" + (if platform.Ios? then "ios" else "android") + "/"
                        + Trim(version) + "-" + number
  {
    var r := ValidateVersion(version);
    forall v ensures r == Ok(v) <==> Asks(v, version) { VersionDecides(version, v); }
    forall v, number | Asks(v, version)
      ensures ValidateNumber(platform, v, build, versionCode) == Ok(number) <==>
              IsNumber(platform, v, build, versionCode, number)
      ensures RefText(platform, v.Text(), number) ==
              "refs/grokbot/mobile-releases/" + (if platform.Ios? then "ios" else "android") + "/" + Trim(version) + "-"
              + number
    {
      NumberDecides(platform, v, build, versionCode, number);
      ValidIff(v);
      PrefixText(platform, Trim(version), number);
    }
    hide Trim, ValidateVersion, ValidateNumber, IsNumber, Asks, RefText;
    if MobileReleaseRefFor(platform, version, build, versionCode) == Ok(ref) {
      var v := r.value;
      var number := ValidateNumber(platform, v, build, versionCode).value;
      assert Asks(v, version) && IsNumber(platform, v, build, versionCode, number);
    }
  }

  lemma PrefixText(platform: Platform, version: string, number: string)
    ensures RefText(platform, version, number) ==
            "refs/grokbot/mobile-releases/" + (if platform.Ios? then "ios" else "android") + "/" + version + "-"
            + number
  {
    assert REF_PREFIX + (if platform.Ios? then "/ios/" else "/android/") ==
           "refs/grokbot/mobile-releases/" + (if platform.Ios? then "ios" else "android") + "/";
  }

  // ------------------------------------------------------------------ refs are distinct

  lemma ValidTextHasNoDash(v: Version)
    requires v.Valid()
    ensures '-' !in v.Text()
  {
  }

  lemma RefTextDetermines(p: Platform, x: string, n: string, q: Platform, y: string, m: string)
    requires RefText(p, x, n) == RefText(q, y, m) && '-' !in x && '-' !in y
    ensures p == q && x == y && n == m
  {
    var r := RefText(p, x, n);
    var k := |REF_PREFIX|;
    assert r[k + 1] == (if p.Ios? then 'i' else 'a') && r[k + 1] == (if q.Ios? then 'i' else 'a');
    var skip := k + if p.Ios? then 5 else 9;
    assert r[skip..] == x + "-" + n && r[skip..] == y + "-" + m;
    DashSeparates(x, n, y, m);
  }

  /** Two builds share a ref only if platform, version and number all agree (up to surrounding blanks). */
  lemma RefsAreDistinct(p: Platform, version: string, build: Option<string>, code: Option<string>,
                        q: Platform, version': string, build': Option<string>, code': Option<string>)
    requires MobileReleaseRefFor(p, version, build, code).Ok?
    requires MobileReleaseRefFor(p, version, build, code) == MobileReleaseRefFor(q, version', build', code')
    ensures p == q && Trim(version) == Trim(version')
    ensures if p.Ios? then Trim(build.GetOr("")) == Trim(build'.GetOr(""))
            else Trim(code.GetOr("")) == Trim(code'.GetOr(""))
  {
    var v, w := ValidateVersion(version).value, ValidateVersion(version').value;
    ParseVersionInvertsText(Trim(version), v);
    ParseVersionInvertsText(Trim(version'), w);
    ValidTextHasNoDash(v);
    ValidTextHasNoDash(w);
    var n, m := ValidateNumber(p, v, build, code).value, ValidateNumber(q, w, build', code').value;
    NumberIsTrimmed(p, v, build, code);
    NumberIsTrimmed(q, w, build', code');
    hide RefText, ValidateNumber, ParseVersion;
    RefTextDetermines(p, v.Text(), n, q, w.Text(), m);
  }

  lemma NumberIsTrimmed(p: Platform, v: Version, build: Option<string>, code: Option<string>)
    requires ValidateNumber(p, v, build, code).Ok?
    ensures ValidateNumber(p, v, build, code).value == Trim((if p.Ios? then build else code).GetOr(""))
  {
  }

  lemma DashSeparates(x: string, n: string, y: string, m: string)
    requires '-' !in x && '-' !in y && x + "-" + n == y + "-" + m
    ensures x == y && n == m
  {
    var a, b := x + "-" + n, y + "-" + m;
    assert a[|x|] == '-' && b[|y|] == '-';
    assert x == a[..|x|] && y == b[..|y|];
    assert n == a[|x| + 1..] && m == b[|y| + 1..];
  }
}
