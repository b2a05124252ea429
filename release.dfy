// The version arithmetic of the interactive release script
// (scripts/interactive-release.js): `incrementVersion`, `validateVersion`
// and the menu choice of `selectVersionType`.
module Release {
  import opened Wrappers
  import opened Strings

  /** What `Number(part)` and an array read give for one component of
      `version.split('.').map(Number)`: a whole number, `NaN`, or `undefined`
      when the version has fewer components than the template reads. */
  datatype Part = Value(n: nat) | NotANumber | Undefined

  /** `Number(s)` for a component: white space around it is ignored, an
      all-white-space string is 0, a decimal digit run is its value and
      anything else is `NaN`. */
  function ToNumber(s: string): (r: Part)
    ensures r != Undefined
    ensures s != [] && AllDigits(s) ==> r == Value(DigitsValue(s))
  {
    var t := Trim(s);
    DigitsUntrimmed(s);
    if t == [] then Value(0)
    else if AllDigits(t) then Value(DigitsValue(t))
    else NotANumber
  }

  lemma DigitsUntrimmed(s: string)
    ensures s != [] && AllDigits(s) ==> Trim(s) == s
  {
    if s != [] && AllDigits(s) {
      assert !IsSpace(s[0]);
      assert TrimStart(s) == s;
      assert !IsSpace(s[|s| - 1]);
    }
  }

  /** `parts[i]`. */
  function PartAt(parts: seq<string>, i: nat): Part {
    if i < |parts| then ToNumber(parts[i]) else Undefined
  }

  /** `p + 1`: `undefined + 1` and `NaN + 1` are both `NaN`. */
  function Plus1(p: Part): Part {
    match p
    case Value(n) => Value(n + 1)
    case _ => NotANumber
  }

  /** The text a template literal puts in place of `${p}`. */
  function Show(p: Part): string {
    match p
    case Value(n) => NatToString(n)
    case NotANumber => "NaN"
    case Undefined => "undefined"
  }

  /** `incrementVersion(version, type)`; the thrown `Error` is a `Failure`. */
  function IncrementVersion(version: string, versionType: string): (r: Result<string, string>)
    ensures r.Failure? <==> versionType !in {"major", "minor", "patch"}
    ensures r.Failure? ==> r.error == "Invalid version type: " + versionType
  {
    BumpParts(Split(version, "."), versionType)
  }

  /** The bump of the components `parts`. */
  function BumpParts(parts: seq<string>, versionType: string): Result<string, string> {
    Bump(PartAt(parts, 0), PartAt(parts, 1), PartAt(parts, 2), versionType)
  }

  /** The bump of the numbers `major`, `minor` and `patch` as read. */
  function Bump(major: Part, minor: Part, patch: Part, versionType: string): Result<string, string> {
    if versionType == "major" then
      Success(Show(Plus1(major)) + ".0.0")
    else if versionType == "minor" then
      Success(Show(major) + "." + Show(Plus1(minor)) + ".0")
    else if versionType == "patch" then
      Success(Show(major) + "." + Show(minor) + "." + Show(Plus1(patch)))
    else
      Failure("Invalid version type: " + versionType)
  }

  /** `validateVersion(version)`: the test `/^\d+\.\d+\.\d+$/`. */
  predicate ValidateVersion(version: string) {
    var parts := Split(version, ".");
    |parts| == 3 && forall i :: 0 <= i < 3 ==> parts[i] != [] && AllDigits(parts[i])
  }

  // ------------------------------------------------------------------------
  // Versions as numbers

  datatype Version = Version(major: nat, minor: nat, patch: nat)

  /** The numbers of a version `validateVersion` accepts. */
  function ParseVersion(version: string): (r: Option<Version>)
    ensures r.Some? <==> ValidateVersion(version)
  {
    if ValidateVersion(version) then
      var parts := Split(version, ".");
      Some(Version(DigitsValue(parts[0]), DigitsValue(parts[1]), DigitsValue(parts[2])))
    else None
  }

  /** A version written without leading zeros. */
  function Render(v: Version): string {
    NatToString(v.major) + "." + NatToString(v.minor) + "." + NatToString(v.patch)
  }

  /** The pieces of three digit runs joined with dots. */
  lemma SplitThree(a: string, b: string, c: string)
    requires AllDigits(a) && AllDigits(b) && AllDigits(c)
    ensures Split(a + "." + b + "." + c, ".") == [a, b, c]
  {
    forall t, k | t in {a, b, c} && 0 <= k < |t| ensures t[k] != '.' {
      assert IsDigit(t[k]);
    }
    SplitThreeOn(a, b, c, '.');
  }

  /** `validateVersion` accepts exactly three non-empty digit runs joined
      by dots, leading zeros included. */
  lemma ValidateVersionShape(version: string)
    ensures ValidateVersion(version) <==>
      exists a: string, b: string, c: string :: Runs(a, b, c) && version == a + "." + b + "." + c
  {
    if ValidateVersion(version) {
      var parts := Split(version, ".");
      JoinSplit(version, ".");
      assert parts == [parts[0]] + ([parts[1]] + [parts[2]]);
      JoinCons(parts[0], [parts[1], parts[2]], ".");
      JoinCons(parts[1], [parts[2]], ".");
      assert Runs(parts[0], parts[1], parts[2]);
    }
    if exists a: string, b: string, c: string :: Runs(a, b, c) && version == a + "." + b + "." + c {
      var a: string, b: string, c: string :| Runs(a, b, c) && version == a + "." + b + "." + c;
      SplitThree(a, b, c);
    }
  }

  /** Three non-empty runs of decimal digits. */
  predicate Runs(a: string, b: string, c: string) {
    a != [] && AllDigits(a) && b != [] && AllDigits(b) && c != [] && AllDigits(c)
  }

  /** Writing a version out and reading it back gives the same numbers. */
  lemma RenderParse(v: Version)
    ensures ValidateVersion(Render(v))
    ensures ParseVersion(Render(v)) == Some(v)
  {
    SplitThree(NatToString(v.major), NatToString(v.minor), NatToString(v.patch));
    DigitsValueOfNatToString(v.major);
    DigitsValueOfNatToString(v.minor);
    DigitsValueOfNatToString(v.patch);
  }

  /** The components of a valid version, read by `Number`. */
  lemma ValidParts(version: string)
    requires ValidateVersion(version)
    ensures var parts := Split(version, ".");
      var v := ParseVersion(version).value;
      PartAt(parts, 0) == Value(v.major) && PartAt(parts, 1) == Value(v.minor) && PartAt(parts, 2) == Value(v.patch)
  {
  }

  /** A `patch` bump of a valid version increments only the third number. */
  lemma PatchBump(version: string)
    requires ValidateVersion(version)
    ensures var v := ParseVersion(version).value;
      IncrementVersion(version, "patch") == Success(Render(Version(v.major, v.minor, v.patch + 1)))
  {
    ValidParts(version);
  }

  /** A `minor` bump increments the second number and resets the third. */
  lemma MinorBump(version: string)
    requires ValidateVersion(version)
    ensures var v := ParseVersion(version).value;
      IncrementVersion(version, "minor") == Success(Render(Version(v.major, v.minor + 1, 0)))
  {
    ValidParts(version);
    var v := ParseVersion(version).value;
    assert IncrementVersion(version, "minor").value == NatToString(v.major) + "." + NatToString(v.minor + 1) + ".0";
    RenderZeroPatch(v.major, v.minor + 1);
  }

  /** Helper: `Render` of (a, b, 0), the form the `minor` bump writes. */
  lemma RenderZeroPatch(a: nat, b: nat)
    ensures Render(Version(a, b, 0)) == NatToString(a) + "." + NatToString(b) + ".0"
  {
    assert NatToString(0) == "0";
    var head := NatToString(a) + "." + NatToString(b);
    assert head + "." + "0" == head + ".0";
  }

  /** A `major` bump increments the first number and resets the others. */
  lemma MajorBump(version: string)
    requires ValidateVersion(version)
    ensures var v := ParseVersion(version).value;
      IncrementVersion(version, "major") == Success(Render(Version(v.major + 1, 0, 0)))
  {
    ValidParts(version);
    var v := ParseVersion(version).value;
    assert IncrementVersion(version, "major").value == NatToString(v.major + 1) + ".0.0";
    RenderZeros(v.major + 1);
  }

  /** Helper: `Render` of (n, 0, 0), the form the `major` bump writes. */
  lemma RenderZeros(n: nat)
    ensures Render(Version(n, 0, 0)) == NatToString(n) + ".0.0"
  {
    assert NatToString(0) == "0";
    var head := NatToString(n);
    assert head + "." + "0" + "." + "0" == head + ".0.0";
  }

  /** Bumping a valid version gives a valid version, whose numbers are the
      bumped ones. */
  lemma BumpStaysValid(version: string, versionType: string)
    requires ValidateVersion(version) && versionType in {"major", "minor", "patch"}
    ensures IncrementVersion(version, versionType).Success?
    ensures ValidateVersion(IncrementVersion(version, versionType).value)
    ensures ParseVersion(IncrementVersion(version, versionType).value) == Some(Bumped(ParseVersion(version).value, versionType))
  {
    var v := ParseVersion(version).value;
    if versionType == "major" {
      MajorBump(version);
    } else if versionType == "minor" {
      MinorBump(version);
    } else {
      PatchBump(version);
    }
    RenderParse(Bumped(v, versionType));
  }

  /** The numbers after a bump of the given kind. */
  function Bumped(v: Version, versionType: string): Version {
    if versionType == "major" then Version(v.major + 1, 0, 0)
    else if versionType == "minor" then Version(v.major, v.minor + 1, 0)
    else Version(v.major, v.minor, v.patch + 1)
  }

  /** A bump strictly raises the version in the order of its numbers. */
  predicate Below(a: Version, b: Version) {
    a.major < b.major || (a.major == b.major && (a.minor < b.minor || (a.minor == b.minor && a.patch < b.patch)))
  }

  lemma BumpRaises(v: Version, versionType: string)
    ensures Below(v, Bumped(v, versionType))
  {
  }

  /** `validateVersion` does not reject leading zeros: a version whose first
      number carries an extra `0` is valid, reads as the same numbers, and
      every bump of it gives what the bump of the unpadded version gives, so
      the padding is dropped. */
  lemma LeadingZeros(a: string, b: string, c: string, versionType: string)
    requires Runs(a, b, c)
    ensures ValidateVersion("0" + a + "." + b + "." + c)
    ensures ParseVersion("0" + a + "." + b + "." + c) == ParseVersion(a + "." + b + "." + c)
    ensures IncrementVersion("0" + a + "." + b + "." + c, versionType) == IncrementVersion(a + "." + b + "." + c, versionType)
  {
    var padded := "0" + a;
    ZeroPad(a);
    var x0 := padded + "." + b + "." + c;
    assert "0" + a + "." + b + "." + c == x0;
    ParseRuns(padded, b, c);
    ParseRuns(a, b, c);
    SameParts([padded, b, c], [a, b, c], versionType);
    assert IncrementVersion(x0, versionType) == BumpParts([padded, b, c], versionType);
  }

  /** Three digit runs joined by dots are valid, with their values as numbers. */
  lemma ParseRuns(a: string, b: string, c: string)
    requires Runs(a, b, c)
    ensures Split(a + "." + b + "." + c, ".") == [a, b, c]
    ensures ValidateVersion(a + "." + b + "." + c)
    ensures ParseVersion(a + "." + b + "." + c) == Some(Version(DigitsValue(a), DigitsValue(b), DigitsValue(c)))
  {
    SplitThree(a, b, c);
  }

  /** `incrementVersion` reads only the first three numbers. */
  lemma SameParts(px: seq<string>, py: seq<string>, versionType: string)
    requires forall k :: 0 <= k < 3 ==> PartAt(px, k) == PartAt(py, k)
    ensures BumpParts(px, versionType) == BumpParts(py, versionType)
  {
    assert PartAt(px, 0) == PartAt(py, 0);
    assert PartAt(px, 1) == PartAt(py, 1);
    assert PartAt(px, 2) == PartAt(py, 2);
  }

  /** A leading `0` does not change the value of a digit run. */
  lemma {:induction false} ZeroPad(a: string)
    requires AllDigits(a)
    ensures AllDigits("0" + a) && DigitsValue("0" + a) == DigitsValue(a)
    decreases |a|
  {
    var padded := "0" + a;
    assert forall k :: 0 < k < |padded| ==> padded[k] == a[k - 1];
    if a != [] {
      var init := a[..|a| - 1];
      assert padded[..|padded| - 1] == "0" + init;
      assert padded[|padded| - 1] == a[|a| - 1];
      ZeroPad(init);
    }
  }

  // ------------------------------------------------------------------------
  // The menu of `selectVersionType`

  /** What one answer to the menu selects. */
  datatype Selection = Increment(versionType: string) | CustomVersion | InvalidChoice

  /** The `switch (choice)` of `selectVersionType`. */
  function SelectionOf(choice: string): (r: Selection)
    ensures r.Increment? <==> choice in {"1", "2", "3"}
    ensures r == CustomVersion <==> choice == "4"
    ensures r.Increment? ==> r.versionType in {"major", "minor", "patch"}
  {
    if choice == "1" then Increment("patch")
    else if choice == "2" then Increment("minor")
    else if choice == "3" then Increment("major")
    else if choice == "4" then CustomVersion
    else InvalidChoice
  }

  /** Choices 1, 2 and 3 bump the third, second and first number, so an
      increment chosen from the menu never throws. */
  lemma ChoiceBumps(version: string, choice: string)
    requires ValidateVersion(version) && choice in {"1", "2", "3"}
    ensures var v := ParseVersion(version).value;
      IncrementVersion(version, SelectionOf(choice).versionType) == Success(Render(
        if choice == "1" then Version(v.major, v.minor, v.patch + 1)
        else if choice == "2" then Version(v.major, v.minor + 1, 0)
        else Version(v.major + 1, 0, 0)))
  {
    if choice == "1" {
      PatchBump(version);
    } else if choice == "2" {
      MinorBump(version);
    } else {
      MajorBump(version);
    }
  }
}
