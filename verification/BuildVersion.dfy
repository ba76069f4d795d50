/** Bumping the build part of a package version. */
module BuildVersion {
  import opened Wrappers

  const MAX_INT: int := 0x7FFF_FFFF_FFFF_FFFF
  const MIN_INT: int := -0x8000_0000_0000_0000

  /** Increment of a 64-bit integer. */
  function Increment(n: int): int {
    if n == MAX_INT then MIN_INT else n + 1
  }

  // ---------- decimal numerals ----------

  predicate Digits(s: string) {
    forall i :: 0 <= i < |s| ==> '0' <= s[i] <= '9'
  }

  function Value(s: string): nat
    requires Digits(s)
  {
    if s == "" then 0 else Value(s[..|s| - 1]) * 10 + (s[|s| - 1] - '0') as nat
  }

  /** An optional sign, at least one digit, and a value of 64 bits. */
  function Atoi(s: string): Option<int> {
    var signed := s != "" && s[0] in ['+', '-'];
    var digits := if signed then s[1..] else s;
    if digits == "" || !Digits(digits) then None
    else
      var v: int := Value(digits);
      var n: int := if s[0] == '-' then -v else v;
      if MIN_INT <= n <= MAX_INT then Some(n) else None
  }

  function NatToString(n: nat): (s: string)
    ensures s != "" && Digits(s)
    ensures Value(s) == n
  {
    var last := '0' + (n % 10) as char;
    if n < 10 then [last] else NatToString(n / 10) + [last]
  }

  function Itoa(n: int): string {
    if n < 0 then "-" + NatToString(-n) else NatToString(n)
  }

  lemma AtoiOfItoa(n: int)
    requires MIN_INT <= n <= MAX_INT
    ensures Atoi(Itoa(n)) == Some(n)
  {
    hide NatToString, Atoi;
    AtoiOfDigits(NatToString(if n < 0 then -n else n));
  }

  /** The text is an optional sign and digits of this value, of 64 bits. */
  ghost predicate Numeral(s: string, n: int) {
    && MIN_INT <= n <= MAX_INT
    && exists ds :: ds != "" && Digits(ds) &&
         (((s == ds || s == "+" + ds) && n == Value(ds)) || (s == "-" + ds && n == 0 - Value(ds)))
  }

  lemma AtoiMeaning(s: string, n: int)
    ensures Atoi(s) == Some(n) <==> Numeral(s, n)
  {
    hide Value;
    if ds :| ds != "" && Digits(ds) && (s == ds || s == "+" + ds || s == "-" + ds) {
      assert '0' <= ds[0] <= '9';
      assert s[0] in ['+', '-'] ==> s[1..] == ds;
    }
    if Atoi(s).Some? {
      var ds := if s[0] in ['+', '-'] then s[1..] else s;
      assert s == ds || s == "+" + ds || s == "-" + ds;
    }
  }

  lemma AtoiOfDigits(s: string)
    requires s != "" && Digits(s)
    ensures Value(s) <= MAX_INT ==> Atoi(s) == Some(Value(s))
    ensures 0 - Value(s) >= MIN_INT ==> Atoi("-" + s) == Some(0 - Value(s))
  {
    hide Value;
    assert '0' <= s[0] <= '9';
    assert ("-" + s)[0] == '-' && ("-" + s)[1..] == s;
  }

  lemma ItoaHasNoDot(n: int)
    ensures '.' !in Itoa(n)
  {
  }

  // ---------- the forms of a build part ----------

  /** The regular expression of a tag followed by digits, where the digits are a number. */
  function TaggedNumber(tag: string, build: string): Option<int> {
    if |tag| <= |build| && build[..|tag|] == tag && Digits(build[|tag|..]) then Atoi(build[|tag|..]) else None
  }

  function LastDot(s: string): (d: int)
    ensures -1 <= d < |s|
    ensures d >= 0 ==> s[d] == '.'
    ensures forall i :: d < i < |s| ==> s[i] != '.'
  {
    if s == "" then -1
    else if s[|s| - 1] == '.' then |s| - 1
    else LastDot(s[..|s| - 1])
  }

  datatype Parts = Parts(prefix: string, id: int)

  /** The prefix and the number of a build part. */
  function Classify(build: string): Parts {
    if build == "" then Parts("", 0)
    else if Atoi(build).Some? then Parts("", Atoi(build).value)
    else if TaggedNumber("r", build).Some? then Parts("r", TaggedNumber("r", build).value)
    else if TaggedNumber("p", build).Some? then Parts("p", TaggedNumber("p", build).value)
    else if TaggedNumber("rc", build).Some? then Parts("rc", TaggedNumber("rc", build).value)
    else
      var dot := LastDot(build);
      if dot > 0 && Atoi(build[dot + 1..]).Some? then Parts(build[..dot + 1], Atoi(build[dot + 1..]).value)
      else Parts(build + ".", 0)
  }

  function Bump(build: string): string {
    var parts := Classify(build);
    parts.prefix + Itoa(Increment(parts.id))
  }

  predicate IsTag(prefix: string) {
    prefix == "r" || prefix == "p" || prefix == "rc"
  }

  predicate Dotted(prefix: string) {
    |prefix| > 1 && prefix[|prefix| - 1] == '.'
  }

  lemma Tags()
    ensures IsTag("r") && IsTag("p") && IsTag("rc") && !IsTag("")
  {
  }

  lemma DottedPrefix(prefix: string)
    requires |prefix| > 1 && prefix[|prefix| - 1] == '.'
    ensures Dotted(prefix) && !IsTag(prefix)
  {
  }

  lemma AtoiRange(s: string)
    ensures Atoi(s).Some? ==> MIN_INT <= Atoi(s).value <= MAX_INT
  {
  }

  lemma TaggedRange(tag: string, build: string)
    ensures TaggedNumber(tag, build).Some? ==> 0 <= TaggedNumber(tag, build).value <= MAX_INT
  {
    hide Value;
  }

  /** A prefix is empty, a tag, or something that ends with a dot. */
  lemma PrefixForms(build: string)
    ensures var parts := Classify(build);
      && MIN_INT <= parts.id <= MAX_INT
      && (IsTag(parts.prefix) ==> parts.id >= 0)
      && (parts.prefix == "" || IsTag(parts.prefix) || Dotted(parts.prefix))
  {
    hide Atoi, TaggedNumber, IsTag, Dotted, LastDot;
    Tags();
    if build != "" {
      DottedPrefix(build + ".");
      if LastDot(build) > 0 {
        DottedPrefix(build[..LastDot(build) + 1]);
      }
    }
    AtoiRange(build);
    TaggedRange("r", build);
    TaggedRange("p", build);
    TaggedRange("rc", build);
    AtoiRange(build[LastDot(build) + 1..]);
  }

  /** With a dot after its first character a string is no number, with or without a tag. */
  lemma DottedIsNoNumber(build: string, d: nat)
    requires 0 < d < |build| && build[d] == '.'
    ensures Atoi(build).None?
    ensures forall tag :: IsTag(tag) ==> TaggedNumber(tag, build).None?
  {
    hide Value;
    assert build[1..][d - 1] == '.';
    forall tag | IsTag(tag) ensures TaggedNumber(tag, build).None? {
      if |tag| <= |build| && build[..|tag|] == tag {
        assert build == tag + build[|tag|..] && '.' in build;
        assert '.' in build[|tag|..];
      }
    }
  }

  lemma PlainForm(n: int)
    requires MIN_INT <= n <= MAX_INT
    ensures Classify(Itoa(n)) == Parts("", n)
  {
    AtoiOfItoa(n);
  }

  lemma TaggedForm(tag: string, n: int)
    requires IsTag(tag) && 0 <= n <= MAX_INT
    ensures Classify(tag + Itoa(n)) == Parts(tag, n)
  {
    hide NatToString, Value;
    var build, num := tag + Itoa(n), Itoa(n);
    AtoiOfItoa(n);
    assert build[|tag|..] == num && build[..|tag|] == tag;
    assert TaggedNumber(tag, build) == Some(n);
    TagIsNoNumber(tag, num);
  }

  /** A tagged number is no number, and no number after another tag that is tried earlier. */
  lemma TagIsNoNumber(tag: string, num: string)
    requires IsTag(tag) && num != ""
    ensures Atoi(tag + num).None?
    ensures tag != "r" ==> TaggedNumber("r", tag + num).None?
    ensures tag == "rc" ==> TaggedNumber("p", tag + num).None?
  {
    hide Value;
    var build := tag + num;
    assert build[0] == tag[0] && build[..1] == [tag[0]];
    if tag == "rc" {
      assert build[1..][0] == 'c';
    }
  }

  /** A number that overflowed is negative, and after a tag it is not read as a number any more. */
  lemma TaggedNegative(tag: string, n: int)
    requires IsTag(tag) && n < 0
    ensures Classify(tag + Itoa(n)).prefix != tag
  {
  }

  lemma DottedForm(prefix: string, n: int)
    requires Dotted(prefix) && MIN_INT <= n <= MAX_INT
    ensures Classify(prefix + Itoa(n)) == Parts(prefix, n)
  {
    hide Atoi, Itoa, TaggedNumber;
    var build, num := prefix + Itoa(n), Itoa(n);
    AtoiOfItoa(n);
    ItoaHasNoDot(n);
    DottedIsNoNumber(build, |prefix| - 1);
    var dot := LastDot(build);
    assert forall i :: |prefix| <= i < |build| ==> build[i] in num;
    assert build[|prefix| - 1] == '.' && build[|prefix|..] == num;
    assert build[..dot + 1] == prefix;
  }

  // ---------- what a bump makes of a text ----------

  /** A tag and digits. */
  ghost predicate TagAndDigits(build: string, tag: string, n: int) {
    && IsTag(tag) && |tag| < |build| && build[..|tag|] == tag
    && Digits(build[|tag|..]) && n == Value(build[|tag|..]) <= MAX_INT
  }

  /** Something that ends with the last dot, and a number. */
  ghost predicate DotAndNumeral(build: string, prefix: string, n: int) {
    && Dotted(prefix) && |prefix| <= |build| && build[..|prefix|] == prefix
    && '.' !in build[|prefix|..] && Numeral(build[|prefix|..], n)
  }

  ghost predicate ReadsAs(build: string, prefix: string, n: int) {
    || (prefix == "" && Numeral(build, n))
    || TagAndDigits(build, prefix, n)
    || DotAndNumeral(build, prefix, n)
  }

  lemma TagReads(build: string, tag: string, n: int)
    requires TagAndDigits(build, tag, n)
    ensures Classify(build) == Parts(tag, n)
  {
    hide Value;
    var num := build[|tag|..];
    assert build == tag + num;
    AtoiOfDigits(num);
    assert TaggedNumber(tag, build) == Some(n);
    TagIsNoNumber(tag, num);
  }

  lemma DotReads(build: string, prefix: string, n: int)
    requires DotAndNumeral(build, prefix, n)
    ensures Classify(build) == Parts(prefix, n)
  {
    hide Atoi, TaggedNumber, Numeral;
    var num := build[|prefix|..];
    assert build == prefix + num;
    AtoiMeaning(num, n);
    DottedIsNoNumber(build, |prefix| - 1);
    var dot := LastDot(build);
    assert forall i :: |prefix| <= i < |build| ==> build[i] in num;
    assert build[|prefix| - 1] == '.';
  }

  lemma TaggedIsRead(build: string, tag: string)
    requires IsTag(tag) && TaggedNumber(tag, build).Some?
    ensures TagAndDigits(build, tag, TaggedNumber(tag, build).value)
  {
    hide Value;
    assert '0' <= build[|tag|..][0] <= '9';
  }

  lemma DottedIsRead(build: string)
    requires LastDot(build) > 0 && Atoi(build[LastDot(build) + 1..]).Some?
    ensures DotAndNumeral(build, build[..LastDot(build) + 1], Atoi(build[LastDot(build) + 1..]).value)
  {
    hide Value, Atoi, Numeral;
    var dot := LastDot(build);
    AtoiMeaning(build[dot + 1..], Atoi(build[dot + 1..]).value);
    DottedPrefix(build[..dot + 1]);
    assert '.' !in build[dot + 1..];
  }

  /** An empty build part becomes 1, a number, a tag with a number, and a prefix that ends with the last dot keep what
      is before the number and take the next one, and any other text is continued with .1. */
  lemma BumpMeaning(build: string, prefix: string, n: int)
    ensures Bump("") == "1"
    ensures ReadsAs(build, prefix, n) ==> Bump(build) == prefix + Itoa(Increment(n))
    ensures build != "" && (forall x, m :: !ReadsAs(build, x, m)) ==> Bump(build) == build + ".1"
  {
    hide Atoi, TaggedNumber, Numeral, TagAndDigits, DotAndNumeral, IsTag;
    assert "" + Itoa(1) == "1" && build + "." + Itoa(1) == build + ".1";
    Tags();
    if ReadsAs(build, prefix, n) {
      AtoiMeaning(build, n);
      NoEmptyNumeral();
      if TagAndDigits(build, prefix, n) {
        TagReads(build, prefix, n);
      } else if DotAndNumeral(build, prefix, n) {
        DotReads(build, prefix, n);
      }
    }
    if build != "" {
      ClassifyReads(build);
    }
  }

  lemma ClassifyReads(build: string)
    requires build != ""
    ensures ReadsAs(build, Classify(build).prefix, Classify(build).id) || Classify(build) == Parts(build + ".", 0)
  {
    hide Atoi, TaggedNumber, Numeral, TagAndDigits, DotAndNumeral, IsTag;
    Tags();
    if Atoi(build).Some? {
      AtoiMeaning(build, Atoi(build).value);
    }
    forall tag | IsTag(tag) && TaggedNumber(tag, build).Some?
      ensures TagAndDigits(build, tag, TaggedNumber(tag, build).value)
    {
      TaggedIsRead(build, tag);
    }
    if LastDot(build) > 0 && Atoi(build[LastDot(build) + 1..]).Some? {
      DottedIsRead(build);
    }
  }

  /** The bumps of the repository's own tests. */
  lemma TestedBumps()
    ensures Bump("") == "1" && Bump("1") == "2" && Bump("100") == "101"
    ensures Bump("r1") == "r2" && Bump("p1") == "p2"
    ensures Bump("pre20200315") == "pre20200315.1" && Bump("pre20200315.1") == "pre20200315.2"
    ensures Bump("d-r1") == "d-r1.1" && Bump("p20200315.1") == "p20200315.2"
  {
    hide Bump, Numeral, Itoa;
    Numerals();
    BumpMeaning("1", "", 1);
    BumpMeaning("100", "", 100);
    assert "" + Itoa(2) == Itoa(2) && "" + Itoa(101) == Itoa(101);
    assert "r" + "1" == "r1" && "p" + "1" == "p1" && "r" + "2" == "r2" && "p" + "2" == "p2";
    assert "pre20200315." + "1" == "pre20200315.1" && "pre20200315." + "2" == "pre20200315.2";
    assert "p20200315." + "1" == "p20200315.1" && "p20200315." + "2" == "p20200315.2";
    assert "pre20200315" + ".1" == "pre20200315.1" && "d-r1" + ".1" == "d-r1.1";
    TestedTag("r");
    TestedTag("p");
    TestedDot("pre20200315.");
    TestedDot("p20200315.");
    PlainText("pre20200315");
    PlainText("d-r1");
  }

  lemma Numerals()
    ensures Numeral("1", 1) && Numeral("100", 100) && Value("1") == 1
    ensures Itoa(2) == "2" && Itoa(101) == "101"
  {
    hide Atoi;
    assert "100"[..2] == "10" && "10"[..1] == "1" && "1"[..0] == "";
    assert Value("1") == 1 && Value("10") == 10 && Value("100") == 100;
    assert NatToString(101) == NatToString(10) + "1" && NatToString(10) == NatToString(1) + "0";
  }

  lemma TestedTag(tag: string)
    requires tag == "r" || tag == "p"
    ensures Bump(tag + "1") == tag + "2"
  {
    hide Bump, Numeral, Itoa;
    Numerals();
    assert (tag + "1")[1..] == "1" && (tag + "1")[..1] == tag;
    BumpMeaning(tag + "1", tag, 1);
  }

  lemma TestedDot(prefix: string)
    requires Dotted(prefix)
    ensures Bump(prefix + "1") == prefix + "2"
  {
    hide Bump, Numeral, Itoa;
    Numerals();
    assert (prefix + "1")[|prefix|..] == "1" && (prefix + "1")[..|prefix|] == prefix;
    BumpMeaning(prefix + "1", prefix, 1);
  }

  /** A text without dots that begins with two letters, or a letter and a dash, but with no rc. */
  lemma PlainText(build: string)
    requires |build| > 1 && '.' !in build && build[0] !in ['+', '-'] && build[..2] != "rc"
    requires forall i :: 0 <= i < 2 ==> !('0' <= build[i] <= '9')
    ensures Bump(build) == build + ".1"
  {
    hide Bump, Numeral, TagAndDigits, DotAndNumeral;
    BumpMeaning(build, "", 0);
    BeginsWith(build);
  }

  lemma BeginsWith(build: string)
    requires |build| > 1
    ensures forall n :: Numeral(build, n) ==> build[0] in ['+', '-'] || '0' <= build[0] <= '9'
    ensures forall x, n :: TagAndDigits(build, x, n) ==> '0' <= build[1] <= '9' || build[..2] == "rc"
    ensures forall x, n :: DotAndNumeral(build, x, n) ==> '.' in build
  {
    hide Value;
    forall x, n | TagAndDigits(build, x, n) ensures '0' <= build[1] <= '9' || build[..2] == "rc" {
      assert build[|x|..][0] == build[|x|];
    }
    forall x, n | DotAndNumeral(build, x, n) ensures '.' in build {
      assert build[|x| - 1] == build[..|x|][|x| - 1];
    }
  }

  lemma NoEmptyNumeral()
    ensures forall n :: !Numeral("", n)
  {
  }

  /** A bumped build part has the prefix of the one before and the next number, unless a tagged number
      has overflowed. */
  lemma {:induction false} BumpKeepsForm(build: string)
    ensures Classify(Bump(build)) == Parts(Classify(build).prefix, Increment(Classify(build).id)) <==>
            !(IsTag(Classify(build).prefix) && Classify(build).id == MAX_INT)
  {
    var parts := Classify(build);
    PrefixForms(build);
    if IsTag(parts.prefix) {
      if parts.id == MAX_INT {
        TaggedNegative(parts.prefix, MIN_INT);
      } else {
        TaggedForm(parts.prefix, parts.id + 1);
      }
    } else if parts.prefix == "" {
      PlainForm(Increment(parts.id));
      assert "" + Itoa(Increment(parts.id)) == Itoa(Increment(parts.id));
    } else {
      DottedForm(parts.prefix, Increment(parts.id));
    }
  }

  /** At r9223372036854775807, the largest number after a tag, a bumped build part loses its form. */
  lemma OverflowExample()
    ensures Classify("r" + Itoa(MAX_INT)) == Parts("r", MAX_INT)
    ensures Classify(Bump("r" + Itoa(MAX_INT))).prefix != "r"
  {
    hide Itoa, Atoi;
    TaggedForm("r", MAX_INT);
    TaggedNegative("r", MIN_INT);
  }

  function BumpTimes(build: string, k: nat): string {
    if k == 0 then build else Bump(BumpTimes(build, k - 1))
  }

  /** k bumps add k to the number and leave the prefix as it is. */
  lemma {:induction false} BumpsAdd(build: string, k: nat)
    requires Classify(build).id + k <= MAX_INT
    ensures Classify(BumpTimes(build, k)) == Parts(Classify(build).prefix, Classify(build).id + k)
    ensures k > 0 ==> BumpTimes(build, k) == Classify(build).prefix + Itoa(Classify(build).id + k)
  {
    if k > 0 {
      BumpsAdd(build, k - 1);
      BumpKeepsForm(BumpTimes(build, k - 1));
    }
  }

  /** No build part comes back. */
  lemma {:induction false} BumpsAreDistinct(build: string, j: nat, k: nat)
    requires j < k && Classify(build).id + k <= MAX_INT
    ensures BumpTimes(build, j) != BumpTimes(build, k)
  {
    BumpsAdd(build, j);
    BumpsAdd(build, k);
  }

  // ---------- versions ----------

  /** What the version library makes of a version. */
  datatype GentooPackage = GentooPackage(version: string, suffix: string, build: string) {
    function WithBuild(build: string): string {
      version + suffix + "+" + build
    }
  }

  /** The library reads a version with a bumped build part back into its parts. */
  ghost predicate RereadsBumps(parse: string -> Option<GentooPackage>, gp: GentooPackage, k: nat) {
    forall j :: 1 <= j < k ==>
      parse(gp.WithBuild(BumpTimes(gp.build, j))) == Some(gp.(build := BumpTimes(gp.build, j)))
  }

  /** The version after k bumps of a package. */
  function VersionAfter(parse: string -> Option<GentooPackage>, version: string, k: nat): Option<string> {
    if k == 0 then Some(version)
    else match VersionAfter(parse, version, k - 1)
      case None => None
      case Some(v) => if parse(v).None? then None else Some(parse(v).value.WithBuild(Bump(parse(v).value.build)))
  }

  /** k bumps of a package add k to the number of its build part and change nothing else. */
  lemma {:induction false} PackageBumpsAdd(parse: string -> Option<GentooPackage>, version: string, k: nat)
    requires parse(version).Some? && k > 0 && RereadsBumps(parse, parse(version).value, k)
    requires Classify(parse(version).value.build).id + k <= MAX_INT
    ensures VersionAfter(parse, version, k) ==
            Some(parse(version).value.WithBuild(Classify(parse(version).value.build).prefix +
                                                Itoa(Classify(parse(version).value.build).id + k)))
  {
    hide Classify, Itoa;
    var gp := parse(version).value;
    BumpsAdd(gp.build, k);
    if k == 1 {
      assert BumpTimes(gp.build, 0) == gp.build;
      assert VersionAfter(parse, version, 0) == Some(version);
    } else {
      PackageBumpsAdd(parse, version, k - 1);
      BumpsAdd(gp.build, k - 1);
      assert VersionAfter(parse, version, k - 1) == Some(gp.WithBuild(BumpTimes(gp.build, k - 1)));
    }
  }

  class DefaultPackage {
    var version: string

    constructor (version: string)
      ensures this.version == version
    {
      this.version := version;
    }

    method BumpBuildVersion(parse: string -> Option<GentooPackage>) returns (ok: bool)
      modifies this
      ensures ok <==> parse(old(version)).Some?
      ensures !ok ==> version == old(version)
      ensures ok ==> VersionAfter(parse, old(version), 1) == Some(version)
      ensures ok ==> var gp := parse(old(version)).value; version == gp.version + gp.suffix + "+" + Bump(gp.build)
    {
      hide Atoi, TaggedNumber, Itoa, LastDot;
      if parse(version).None? {
        return false;
      }
      var gp := parse(version).value;
      var buildPrefix, buildId := "", 0;
      label end: {
        if gp.build != "" {
          var id := Atoi(gp.build);
          if id.Some? {
            buildId := id.value;
            break end;
          }
          id := TaggedNumber("r", gp.build);
          if id.Some? {
            buildPrefix, buildId := "r", id.value;
            break end;
          }
          id := TaggedNumber("p", gp.build);
          if id.Some? {
            buildPrefix, buildId := "p", id.value;
            break end;
          }
          id := TaggedNumber("rc", gp.build);
          if id.Some? {
            buildPrefix, buildId := "rc", id.value;
            break end;
          }
          var dotIdx := LastDot(gp.build);
          if dotIdx > 0 {
            buildPrefix := gp.build[..dotIdx + 1];
            id := Atoi(gp.build[dotIdx + 1..]);
            if id.Some? {
              buildId := id.value;
              break end;
            }
          }
          buildPrefix, buildId := gp.build + ".", 0;
        }
      }
      version := gp.version + gp.suffix + "+" + buildPrefix + Itoa(Increment(buildId));
      assert Parts(buildPrefix, buildId) == Classify(gp.build);
      assert version == gp.WithBuild(Bump(gp.build));
      assert VersionAfter(parse, old(version), 0) == Some(old(version));
      ok := true;
    }
  }

}
