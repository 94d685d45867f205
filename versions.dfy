/**
 * The platform-version helpers of `Sensu::Helpers`: which RHEL release an
 * Amazon Linux platform version corresponds to, and the package version
 * string (with its `.elX` suffix) for Red Hat-like platforms.
 *
 * `Gem::Version` is not modelled: its ordering and its `segments.first` are
 * parameters of the version-string function.
 */
module PlatformVersions {
  import opened Wrappers

  predicate IsDigit(c: char) { '0' <= c <= '9' }

  /** `sub` occurs in `s` starting at position `i`. */
  ghost predicate OccursAt(s: string, sub: string, i: int)
  {
    0 <= i && i + |sub| <= |s| && s[i..i + |sub|] == sub
  }

  /** `s.include?(sub)`. */
  function Includes(s: string, sub: string): (r: bool)
    ensures r <==> exists i :: OccursAt(s, sub, i)
    decreases |s|
  {
    if |s| < |sub| then
      assert forall i :: !OccursAt(s, sub, i);
      false
    else if s[..|sub|] == sub then
      assert OccursAt(s, sub, 0);
      true
    else
      var r := Includes(s[1..], sub);
      assert forall i :: OccursAt(s, sub, i) && i > 0 ==> OccursAt(s[1..], sub, i - 1) by {
        forall i | OccursAt(s, sub, i) && i > 0
          ensures OccursAt(s[1..], sub, i - 1)
        {
          assert s[1..][i - 1..i - 1 + |sub|] == s[i..i + |sub|];
        }
      }
      assert forall i :: OccursAt(s[1..], sub, i) ==> OccursAt(s, sub, i + 1) by {
        forall i | OccursAt(s[1..], sub, i)
          ensures OccursAt(s, sub, i + 1)
        {
          assert s[1..][i..i + |sub|] == s[i + 1..i + 1 + |sub|];
        }
      }
      r
  }

  /** `201` followed by a digit starts at position `i` of `s`. */
  ghost predicate YearAt(s: string, i: int)
  {
    0 <= i && i + 4 <= |s| && s[i..i + 3] == "201" && IsDigit(s[i + 3])
  }

  /** `/201\d/.match?(s)`: a year of the 2010s appears in `s`. */
  function MatchesYear(s: string): (r: bool)
    ensures r <==> exists i :: YearAt(s, i)
    decreases |s|
  {
    if |s| < 4 then
      assert forall i :: !YearAt(s, i);
      false
    else if s[..3] == "201" && IsDigit(s[3]) then
      assert YearAt(s, 0);
      true
    else
      var r := MatchesYear(s[1..]);
      assert forall i :: YearAt(s, i) && i > 0 ==> YearAt(s[1..], i - 1) by {
        forall i | YearAt(s, i) && i > 0
          ensures YearAt(s[1..], i - 1)
        {
          assert s[1..][i - 1..i + 2] == s[i..i + 3];
        }
      }
      assert forall i :: YearAt(s[1..], i) ==> YearAt(s, i + 1) by {
        forall i | YearAt(s[1..], i)
          ensures YearAt(s, i + 1)
        {
          assert s[1..][i..i + 3] == s[i + 1..i + 4];
        }
      }
      r
  }

  /** The exception message `amazon_linux_2_rhel_version` raises. */
  function UnsupportedMessage(platformVersion: string): string
  {
    "Unsupported Linux platform version " + platformVersion + " - rhel version unknown"
  }

  /**
   * `amazon_linux_2_rhel_version(platform_version)`: "6" for a version holding
   * a year of the 2010s (Amazon Linux 1, versioned like `2018.03`), else "7"
   * for Amazon Linux 2 (`"2"`, or a version naming `amzn2`), else it raises.
   */
  function RhelVersion(platformVersion: string): (r: Result<string, string>)
    ensures r.Success? ==> r.value == "6" || r.value == "7"
    ensures r.Failure? ==> r.error == UnsupportedMessage(platformVersion)
  {
    if MatchesYear(platformVersion) then Success("6")
    else if platformVersion == "2" || Includes(platformVersion, "amzn2") then Success("7")
    else Failure(UnsupportedMessage(platformVersion))
  }

  /**
   * The three outcomes, each with its exact condition: the year test wins over
   * the Amazon Linux 2 test, and everything else raises.
   */
  lemma RhelVersionCases(platformVersion: string)
    ensures RhelVersion(platformVersion) == Success("6") <==> exists i :: YearAt(platformVersion, i)
    ensures RhelVersion(platformVersion) == Success("7") <==>
              (forall i :: !YearAt(platformVersion, i)) &&
              (platformVersion == "2" || exists i :: OccursAt(platformVersion, "amzn2", i))
    ensures RhelVersion(platformVersion).Failure? <==>
              (forall i :: !YearAt(platformVersion, i)) && platformVersion != "2" &&
              (forall i :: !OccursAt(platformVersion, "amzn2", i))
  {
  }

  /** A version naming both a 2010s year and `amzn2` maps to "6": the year test comes first. */
  lemma YearBeatsAmazonLinux2()
    ensures RhelVersion("amzn2-2018") == Success("6")
  {
    assert YearAt("amzn2-2018", 6);
  }

  /** `s` is made only of dashes (the empty string included). */
  predicate AllDashes(s: string)
  {
    forall i :: 0 <= i < |s| ==> s[i] == '-'
  }

  /** The text before the first `-` of `s` (all of `s` when it has none). */
  function FirstField(s: string): (r: string)
    ensures r <= s && '-' !in r
    ensures |r| < |s| ==> s[|r|] == '-'
  {
    if s == [] || s[0] == '-' then [] else [s[0]] + FirstField(s[1..])
  }

  /**
   * `s.split('-').first`: `nil` when the split is empty (Ruby drops trailing
   * empty fields, so an empty or all-dash string splits into nothing), and
   * otherwise the first field, which is empty when `s` starts with `-`.
   */
  function BareVersion(s: string): (r: Option<string>)
    ensures r.None? <==> AllDashes(s)
    ensures r.Some? ==> r.value == FirstField(s)
  {
    if AllDashes(s) then None else Some(FirstField(s))
  }

  /** The first field of a version built as `bare + "-" + release` is `bare` when `bare` has no dash. */
  lemma {:induction false} FirstFieldOfJoin(bare: string, release: string)
    requires '-' !in bare
    ensures FirstField(bare + "-" + release) == bare
  {
    if bare != [] {
      assert (bare + "-" + release)[1..] == bare[1..] + "-" + release;
      FirstFieldOfJoin(bare[1..], release);
    }
  }

  /** `redhat_version_string` strips the package release: `"1.2.3-1"` has bare version `"1.2.3"`. */
  lemma BareVersionOfRelease(bare: string, release: string)
    requires bare != [] && '-' !in bare
    ensures BareVersion(bare + "-" + release) == Some(bare)
  {
    FirstFieldOfJoin(bare, release);
    var s := bare + "-" + release;
    assert bare[0] in bare && s[0] == bare[0];
  }

  /**
   * `redhat_version_string(sensu_version, platform_version, suffix_override)`,
   * and `amazon_linux_2_version_string`, which has the same text.
   * `belowMinimum(b)` stands for `Gem::Version.new(b) < Gem::Version.new('0.27.0')`
   * on the bare version `b`, and `platformMajor(p)` for the interpolated
   * `Gem::Version.new(p).segments.first`.
   */
  function VersionString(sensuVersion: string, platformVersion: string, suffixOverride: Option<string>,
                         belowMinimum: Option<string> -> bool, platformMajor: string -> string): (r: string)
    ensures sensuVersion <= r
    ensures belowMinimum(BareVersion(sensuVersion)) ==> r == sensuVersion
  {
    if belowMinimum(BareVersion(sensuVersion)) then sensuVersion
    else
      var suffix := if suffixOverride.Some? then suffixOverride.value else ".el" + platformMajor(platformVersion);
      sensuVersion + suffix
  }

  /**
   * A version of 0.27.0 or later gets the override appended when there is one,
   * and `.el` with the platform's major version otherwise.
   */
  lemma VersionStringCases(sensuVersion: string, platformVersion: string, suffixOverride: Option<string>,
                           belowMinimum: Option<string> -> bool, platformMajor: string -> string)
    ensures var r := VersionString(sensuVersion, platformVersion, suffixOverride, belowMinimum, platformMajor);
            && (!belowMinimum(BareVersion(sensuVersion)) && suffixOverride.Some? ==> r == sensuVersion + suffixOverride.value)
            && (!belowMinimum(BareVersion(sensuVersion)) && suffixOverride.None? ==>
                  r == sensuVersion + ".el" + platformMajor(platformVersion))
  {
  }

  /**
   * The comparison only sees the bare version: two Sensu versions with the same
   * text before the first `-` get the same treatment.
   */
  lemma VersionStringReadsBareVersion(bare: string, release: string, platformVersion: string, suffixOverride: Option<string>,
                                      belowMinimum: Option<string> -> bool, platformMajor: string -> string)
    requires bare != [] && '-' !in bare
    ensures var s := bare + "-" + release;
            VersionString(s, platformVersion, suffixOverride, belowMinimum, platformMajor) ==
              if belowMinimum(Some(bare)) then s
              else s + (if suffixOverride.Some? then suffixOverride.value else ".el" + platformMajor(platformVersion))
  {
    BareVersionOfRelease(bare, release);
  }
}
