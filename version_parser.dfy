/**
  The OS/version classifier of swan: a raw SNMP sysDescr string is assigned to
  Cisco IOS, Cisco NX-OS, JUNOS or Unknown by an ordered, first-match-wins cascade
  of signature tests, and for JUNOS a version token is taken from the text.

  The four regular expressions of the package are modelled directly as string
  functions: the three literal signatures as a substring search (`Contains`) and
  `JUNOS\s([0-9.a-zA-Z]+),` as `MatchAt` / `FindVersion`, each proved against a
  declarative description of what the pattern matches.
 */
module VersionParser {
  import opened Wrappers

  // ---------------------------------------------------------------------------
  // OSType and its display name
  // ---------------------------------------------------------------------------

  /** `type OSType int`: Go's `int`, 64 bits wide on the platforms the tool targets. */
  newtype OSType = x: int | -0x8000_0000_0000_0000 <= x < 0x8000_0000_0000_0000

  const UnknownOS: OSType := 0
  const CiscoIOS: OSType := 1
  const CiscoNXOS: OSType := 2
  const JunOS: OSType := 3
  const Arista: OSType := 4

  /** One of the four constants with a name of their own (UnknownOS is not among them). */
  predicate HasOwnName(t: OSType) {
    t == CiscoIOS || t == CiscoNXOS || t == JunOS || t == Arista
  }

  /** `OSType.String()`: the display name; every other value, UnknownOS included, reads "Unknown". */
  function Name(t: OSType): (r: string)
    ensures r == "Unknown" <==> !HasOwnName(t)
    ensures |r| > 0
  {
    if t == CiscoIOS then "Cisco IOS"
    else if t == CiscoNXOS then "Cisco NX-OS"
    else if t == JunOS then "JUNOS"
    else if t == Arista then "Arista"
    else "Unknown"
  }

  /** Distinct named constants never share a display name. */
  lemma NameDistinguishesNamedTypes(a: OSType, b: OSType)
    requires HasOwnName(a) && HasOwnName(b) && a != b
    ensures Name(a) != Name(b)
  {
  }

  /** The pair returned by the classifier. */
  datatype OSVersion = OSVersion(osType: OSType, version: string)

  // ---------------------------------------------------------------------------
  // Literal signatures: regexp.MatchString on a pattern without metacharacters
  // ---------------------------------------------------------------------------

  const CiscoIOSSignature: string := "Cisco Internetworking"
  const CiscoNXOSSignature: string := "NX-OS"
  const JuniperSignature: string := "Juniper"

  /** `pat` occurs in `s` starting at index `i`. */
  ghost predicate OccursAt(s: string, pat: string, i: int) {
    0 <= i && i + |pat| <= |s| && s[i..i + |pat|] == pat
  }

  /** A literal pattern matches somewhere in `s` (case-sensitive). */
  ghost predicate HasSignature(s: string, pat: string) {
    exists i :: OccursAt(s, pat, i)
  }

  /** Substring search, the behaviour of MatchString for a literal pattern. */
  function Contains(s: string, pat: string): (r: bool)
    ensures r <==> HasSignature(s, pat)
    decreases |s|
  {
    if |pat| > |s| then
      false
    else if s[..|pat|] == pat then
      assert OccursAt(s, pat, 0);
      true
    else
      var r := Contains(s[1..], pat);
      assert forall i :: OccursAt(s[1..], pat, i) <==> OccursAt(s, pat, i + 1) by {
        forall i ensures OccursAt(s[1..], pat, i) <==> OccursAt(s, pat, i + 1) {
          if 0 <= i && i + |pat| <= |s| - 1 {
            assert s[1..][i..i + |pat|] == s[i + 1..i + 1 + |pat|];
          }
        }
      }
      assert r ==> HasSignature(s, pat) by {
        if r {
          var i :| OccursAt(s[1..], pat, i);
          assert OccursAt(s, pat, i + 1);
        }
      }
      assert HasSignature(s, pat) ==> r by {
        if HasSignature(s, pat) {
          var i :| OccursAt(s, pat, i);
          assert i != 0;
          assert OccursAt(s[1..], pat, i - 1);
        }
      }
      r
  }

  /** If some character of `pat` never appears in `s`, the signature is absent. */
  lemma {:induction false} MissingCharMeansNoSignature(s: string, pat: string, k: nat)
    requires k < |pat| && pat[k] !in s
    ensures !HasSignature(s, pat)
  {
    forall i ensures !OccursAt(s, pat, i) {
      if 0 <= i && i + |pat| <= |s| {
        assert s[i..i + |pat|][k] == s[i + k];
      }
    }
  }

  // ---------------------------------------------------------------------------
  // The version pattern `JUNOS\s([0-9.a-zA-Z]+),`
  // ---------------------------------------------------------------------------

  /** RE2's `\s`: tab, newline, form feed, carriage return or space. */
  predicate IsSpace(c: char) {
    c == ' ' || c == '\t' || c == '\n' || c == '\U{000C}' || c == '\r'
  }

  /** The character class `[0-9.a-zA-Z]`. */
  predicate IsVersionChar(c: char) {
    ('0' <= c <= '9') || c == '.' || ('a' <= c <= 'z') || ('A' <= c <= 'Z')
  }

  /** A non-empty token made of the class `[0-9.a-zA-Z]` only. */
  ghost predicate IsVersionToken(v: string) {
    |v| > 0 && forall j :: 0 <= j < |v| ==> IsVersionChar(v[j])
  }

  /** `JUNOS\s`, the fixed head of the pattern, occurs at `i`. */
  predicate ClauseStartsAt(s: string, i: int) {
    0 <= i && i + 6 <= |s|
    && s[i] == 'J' && s[i + 1] == 'U' && s[i + 2] == 'N' && s[i + 3] == 'O' && s[i + 4] == 'S'
    && IsSpace(s[i + 5])
  }

  /**
    The pattern has a match starting at `i` whose capture group is `v`: the text
    `JUNOS`, one whitespace character, `v`, then a comma. This is what the regular
    expression accepts, with no reference to how a match is searched for.
   */
  ghost predicate CapturesAt(s: string, i: int, v: string) {
    ClauseStartsAt(s, i) && i + 6 + |v| < |s|
    && IsVersionToken(v)
    && s[i + 6..i + 6 + |v|] == v
    && s[i + 6 + |v|] == ','
  }

  /** Length of the maximal run of class characters starting at `j`. */
  function RunLength(s: string, j: nat): (k: nat)
    requires j <= |s|
    ensures j + k <= |s|
    ensures forall m :: j <= m < j + k ==> IsVersionChar(s[m])
    ensures j + k == |s| || !IsVersionChar(s[j + k])
    decreases |s| - j
  {
    if j < |s| && IsVersionChar(s[j]) then 1 + RunLength(s, j + 1) else 0
  }

  /** A run of class characters ended by a character outside the class is the maximal run. */
  lemma {:induction false} RunLengthIsExact(s: string, j: nat, n: nat)
    requires j + n < |s|
    requires forall m :: j <= m < j + n ==> IsVersionChar(s[m])
    requires !IsVersionChar(s[j + n])
    ensures RunLength(s, j) == n
    decreases n
  {
    if n > 0 {
      RunLengthIsExact(s, j + 1, n - 1);
    }
  }

  /**
    Any capture at `i` is exactly the maximal run of class characters after `JUNOS\s`;
    that run is therefore non-empty and followed by a comma.
   */
  lemma CaptureIsMaximalRun(s: string, i: nat, v: string)
    requires CapturesAt(s, i, v)
    ensures RunLength(s, i + 6) == |v| && v == s[i + 6..i + 6 + |v|]
    ensures ClauseStartsAt(s, i) && RunLength(s, i + 6) > 0 && i + 6 + RunLength(s, i + 6) < |s|
    ensures s[i + 6 + RunLength(s, i + 6)] == ',' && v == s[i + 6..i + 6 + RunLength(s, i + 6)]
  {
    forall m | i + 6 <= m < i + 6 + |v| ensures IsVersionChar(s[m]) {
      assert s[m] == v[m - i - 6];
    }
    RunLengthIsExact(s, i + 6, |v|);
  }

  /** Every capture at `i` is the maximal run, so a start admits at most one capture. */
  lemma CapturesAreMaximalRun(s: string, i: nat)
    ensures forall v :: CapturesAt(s, i, v) ==>
      ClauseStartsAt(s, i) && RunLength(s, i + 6) > 0 && i + 6 + RunLength(s, i + 6) < |s| &&
      s[i + 6 + RunLength(s, i + 6)] == ',' && v == s[i + 6..i + 6 + RunLength(s, i + 6)]
  {
    forall v | CapturesAt(s, i, v)
      ensures ClauseStartsAt(s, i) && RunLength(s, i + 6) > 0 && i + 6 + RunLength(s, i + 6) < |s|
      ensures s[i + 6 + RunLength(s, i + 6)] == ',' && v == s[i + 6..i + 6 + RunLength(s, i + 6)]
    {
      CaptureIsMaximalRun(s, i, v);
    }
  }

  /** After `JUNOS\s`, a non-empty maximal run followed by a comma is a capture. */
  lemma MaximalRunCaptures(s: string, i: nat)
    requires ClauseStartsAt(s, i)
    requires RunLength(s, i + 6) > 0 && i + 6 + RunLength(s, i + 6) < |s|
    requires s[i + 6 + RunLength(s, i + 6)] == ','
    ensures CapturesAt(s, i, s[i + 6..i + 6 + RunLength(s, i + 6)])
  {
    var j, k := i + 6, RunLength(s, i + 6);
    var v := s[j..j + k];
    forall m | 0 <= m < |v| ensures IsVersionChar(v[m]) {
      assert v[m] == s[j + m];
    }
  }

  /**
    The capture of the match of the pattern that starts at `i`, if there is one.
    Since `,` is outside the class, the `+` must take the maximal run, and the
    match exists exactly when a comma follows that run; so a start has at most
    one capture, and it is the one returned.
   */
  function MatchAt(s: string, i: nat): (r: Option<string>)
    ensures r.Some? ==> CapturesAt(s, i, r.value)
    ensures forall v :: CapturesAt(s, i, v) ==> r == Some(v)
  {
    CapturesAreMaximalRun(s, i);
    if ClauseStartsAt(s, i) then
      var k := RunLength(s, i + 6);
      if k > 0 && i + 6 + k < |s| && s[i + 6 + k] == ',' then
        MaximalRunCaptures(s, i);
        Some(s[i + 6..i + 6 + k])
      else
        None
    else
      None
  }

  /** No match of the pattern starts in [from, upto). */
  ghost predicate NoMatchBetween(s: string, from: int, upto: int) {
    forall j, w :: from <= j < upto ==> !CapturesAt(s, j, w)
  }

  /** `v` is the capture of the leftmost match starting at or after `from`. */
  ghost predicate IsLeftmostCapture(s: string, from: int, v: string) {
    exists i :: from <= i && CapturesAt(s, i, v) && NoMatchBetween(s, from, i)
  }

  /** Leftmost-match search from `from` onwards, as regexp's FindStringSubmatch does. */
  function FindVersionFrom(s: string, from: nat): (r: Option<string>)
    requires from <= |s|
    ensures r.None? <==> NoMatchBetween(s, from, |s|)
    ensures r.Some? ==> IsLeftmostCapture(s, from, r.value)
    decreases |s| - from
  {
    if from == |s| then
      None
    else
      match MatchAt(s, from)
      case Some(v) =>
        assert CapturesAt(s, from, v) && NoMatchBetween(s, from, from);
        Some(v)
      case None =>
        NoMatchExtendsLeft(s, from);
        FindVersionFrom(s, from + 1)
  }

  /** With no capture at `from`, a match-free range from `from + 1` stays match-free from `from`. */
  lemma NoMatchExtendsLeft(s: string, from: nat)
    requires forall w :: !CapturesAt(s, from, w)
    ensures forall upto :: NoMatchBetween(s, from + 1, upto) ==> NoMatchBetween(s, from, upto)
  {
  }

  /** `FindStringSubmatch(str)[1]` when the pattern matches, None where Go returns a nil slice. */
  function FindVersion(s: string): (r: Option<string>)
    ensures r.None? <==> NoMatchBetween(s, 0, |s|)
    ensures r.Some? ==> IsLeftmostCapture(s, 0, r.value)
  {
    FindVersionFrom(s, 0)
  }

  /** No match can start at or beyond |s|, so "no match in [0, |s|)" means no match at all. */
  lemma NoMatchAnywhere(s: string)
    requires NoMatchBetween(s, 0, |s|)
    ensures forall i, w :: !CapturesAt(s, i, w)
  {
  }

  /** Every match begins with `JU`, so none starts before the first `U` past index 0. */
  lemma NoMatchBeforeUpperU(s: string, n: nat)
    requires n < |s|
    requires forall j :: 1 <= j <= n ==> s[j] != 'U'
    ensures NoMatchBetween(s, 0, n)
  {
    forall j, w | 0 <= j < n ensures !CapturesAt(s, j, w) {
    }
  }

  /** Matches are unique per start, so the leftmost capture is determined by the input. */
  lemma {:induction false} LeftmostCaptureIsUnique(s: string, v: string, w: string)
    requires IsLeftmostCapture(s, 0, v) && IsLeftmostCapture(s, 0, w)
    ensures v == w
  {
    var i :| 0 <= i && CapturesAt(s, i, v) && NoMatchBetween(s, 0, i);
    var j :| 0 <= j && CapturesAt(s, j, w) && NoMatchBetween(s, 0, j);
    assert i < j ==> !CapturesAt(s, i, v);
    assert j < i ==> !CapturesAt(s, j, w);
    assert MatchAt(s, i) == Some(v);
  }

  /** A capture of the version pattern is a non-empty token of digits, dots and ASCII letters. */
  lemma FoundVersionIsToken(s: string)
    requires FindVersion(s).Some?
    ensures IsVersionToken(FindVersion(s).value)
    ensures ',' !in FindVersion(s).value
  {
    var v := FindVersion(s).value;
    var i :| 0 <= i && CapturesAt(s, i, v) && NoMatchBetween(s, 0, i);
    forall j | 0 <= j < |v| ensures v[j] != ',' {
      assert IsVersionChar(v[j]);
    }
  }

  // ---------------------------------------------------------------------------
  // GetVersion as written, and the corrected classifier
  // ---------------------------------------------------------------------------

  /**
    What `GetVersion` does: return a pair, or fail on `v[1]` of a nil slice
    (Go's "index out of range" panic).
   */
  datatype Outcome = Returned(value: OSVersion) | IndexOutOfRange

  /** `GetVersion` as written: the first matching signature decides, in the order IOS, NX-OS, Juniper. */
  function GetVersion(s: string): (r: Outcome)
    ensures r.Returned? ==> r.value.osType != Arista
    ensures r.IndexOutOfRange? <==>
      !HasSignature(s, CiscoIOSSignature) && !HasSignature(s, CiscoNXOSSignature)
      && HasSignature(s, JuniperSignature) && NoMatchBetween(s, 0, |s|)
  {
    if Contains(s, CiscoIOSSignature) then
      Returned(OSVersion(CiscoIOS, "unknown"))
    else if Contains(s, CiscoNXOSSignature) then
      Returned(OSVersion(CiscoNXOS, "unknown"))
    else if Contains(s, JuniperSignature) then
      match FindVersion(s)
      case Some(v) => Returned(OSVersion(JunOS, v))
      case None => IndexOutOfRange
    else
      Returned(OSVersion(UnknownOS, ""))
  }

  /** The IOS signature wins over everything else in the string. */
  lemma CiscoIOSComesFirst(s: string)
    requires HasSignature(s, CiscoIOSSignature)
    ensures GetVersion(s) == Returned(OSVersion(CiscoIOS, "unknown"))
  {
  }

  /** Without the IOS signature, NX-OS wins over Juniper and anything else. */
  lemma CiscoNXOSComesSecond(s: string)
    requires !HasSignature(s, CiscoIOSSignature) && HasSignature(s, CiscoNXOSSignature)
    ensures GetVersion(s) == Returned(OSVersion(CiscoNXOS, "unknown"))
  {
  }

  /**
    Juniper alone: JUNOS with the capture of the leftmost match of the version
    pattern, or the panic when the pattern matches nowhere.
   */
  lemma JuniperComesThird(s: string)
    requires !HasSignature(s, CiscoIOSSignature) && !HasSignature(s, CiscoNXOSSignature)
    requires HasSignature(s, JuniperSignature)
    ensures (exists i, w :: CapturesAt(s, i, w)) ==>
      GetVersion(s).Returned? && GetVersion(s).value.osType == JunOS
      && IsLeftmostCapture(s, 0, GetVersion(s).value.version)
    ensures (forall i, w :: !CapturesAt(s, i, w)) <==> GetVersion(s) == IndexOutOfRange
  {
    if GetVersion(s) == IndexOutOfRange {
      NoMatchAnywhere(s);
    }
  }

  /** No signature: Unknown with an empty version, whatever else the string holds. */
  lemma NoSignatureIsUnknown(s: string)
    requires !HasSignature(s, CiscoIOSSignature) && !HasSignature(s, CiscoNXOSSignature)
    requires !HasSignature(s, JuniperSignature)
    ensures GetVersion(s) == Returned(OSVersion(UnknownOS, ""))
  {
  }

  /**
    What a returned pair looks like: never Arista; "unknown" for both Cisco types;
    an empty version exactly for Unknown; a version token for JUNOS.
   */
  lemma {:induction false} ReturnedPairShape(s: string)
    requires GetVersion(s).Returned?
    ensures var ov := GetVersion(s).value;
      && (ov.osType == UnknownOS || ov.osType == CiscoIOS || ov.osType == CiscoNXOS || ov.osType == JunOS)
      && (ov.osType == CiscoIOS || ov.osType == CiscoNXOS ==> ov.version == "unknown")
      && (ov.osType == UnknownOS <==> ov.version == "")
      && (ov.osType == JunOS ==> IsVersionToken(ov.version))
  {
    var ov := GetVersion(s).value;
    if ov.osType == JunOS {
      FoundVersionIsToken(s);
    }
  }

  // Worked inputs.

  /** Neither Cisco signature can occur in a string without `C` and without `X`. */
  lemma NoCiscoSignature(s: string)
    requires 'C' !in s && 'X' !in s
    ensures !HasSignature(s, CiscoIOSSignature) && !HasSignature(s, CiscoNXOSSignature)
  {
    MissingCharMeansNoSignature(s, CiscoIOSSignature, 0);
    MissingCharMeansNoSignature(s, CiscoNXOSSignature, 1);
  }

  /** A clause `JUNOS`, one whitespace character, `v`, `,` placed after `head` is a match there. */
  lemma ClauseAfterHead(head: string, space: char, v: string)
    requires IsSpace(space) && IsVersionToken(v)
    ensures CapturesAt(head + ("JUNOS" + [space] + v + ","), |head|, v)
  {
    var clause := "JUNOS" + [space] + v + ",";
    var s, i := head + clause, |head|;
    forall m | 0 <= m < |clause| ensures s[i + m] == clause[m] { }
    assert s[i + 6..i + 6 + |v|] == v;
  }

  /** With no `U` in the filler, no `U` precedes the clause after the signature's `J`. */
  lemma NoUpperUBeforeClause(p: string, clause: string)
    requires 'U' !in p && |clause| > 0 && clause[0] == 'J'
    ensures forall j :: 1 <= j <= |JuniperSignature + p| ==> (JuniperSignature + p + clause)[j] != 'U'
  {
    var s := JuniperSignature + p + clause;
    forall j | 1 <= j <= |JuniperSignature + p| ensures s[j] != 'U' {
      if j < 7 {
        assert s[j] == JuniperSignature[j];
      } else if j < 7 + |p| {
        assert s[j] == p[j - 7];
      }
    }
  }

  /**
    A sysDescr made of the Juniper signature, a filler `p`, and the clause
    `JUNOS`, one whitespace character, `v`, `,`. Without `C`, `X` or `U` in the
    filler and the token, it classifies as JUNOS with version `v`.
   */
  lemma JuniperWithClause(p: string, space: char, v: string)
    requires IsSpace(space) && IsVersionToken(v)
    requires 'C' !in p + v && 'X' !in p + v && 'U' !in p
    ensures GetVersion(JuniperSignature + p + ("JUNOS" + [space] + v + ","))
         == Returned(OSVersion(JunOS, v))
  {
    var head := JuniperSignature + p;
    var s := head + ("JUNOS" + [space] + v + ",");
    NoCiscoSignature(s);
    assert s[..7] == JuniperSignature;
    assert OccursAt(s, JuniperSignature, 0);
    ClauseAfterHead(head, space, v);
    NoUpperUBeforeClause(p, "JUNOS" + [space] + v + ",");
    NoMatchBeforeUpperU(s, |head|);
    LeftmostCaptureIsUnique(s, FindVersion(s).value, v);
  }

  /** A Juniper sysDescr with a release clause. */
  const JuniperDescr: string := JuniperSignature + " Networks " + ("JUNOS" + " " + "12.3R9" + ",")
  /** A Juniper sysDescr whose version token happens to spell "unknown". */
  const UnknownTokenDescr: string := JuniperSignature + " " + ("JUNOS" + " " + "unknown" + ",")
  /** A release clause without the Juniper vendor signature. */
  const ClauseOnlyDescr: string := "JUNOS 1.2,"
  /** The Juniper signature without a `JUNOS <token>,` clause. */
  const ClauselessJuniperDescr: string := "Juniper JUNOS"

  /** A JUNOS version can itself read "unknown": that string does not identify the Cisco types. */
  lemma JunOSVersionCanReadUnknown()
    ensures GetVersion(UnknownTokenDescr) == Returned(OSVersion(JunOS, "unknown"))
  {
    JuniperWithClause(" ", ' ', "unknown");
  }

  /** A typical Juniper sysDescr yields its JUNOS release. */
  lemma JuniperExample()
    ensures GetVersion(JuniperDescr) == Returned(OSVersion(JunOS, "12.3R9"))
  {
    JuniperWithClause(" Networks ", ' ', "12.3R9");
  }

  /** The version clause alone, without the Juniper signature, gives Unknown. */
  lemma VersionClauseWithoutJuniperIsUnknown()
    ensures GetVersion(ClauseOnlyDescr) == Returned(OSVersion(UnknownOS, ""))
  {
    NoCiscoSignature(ClauseOnlyDescr);
    MissingCharMeansNoSignature(ClauseOnlyDescr, JuniperSignature, 1);
  }

  /** The fault: Juniper without a `JUNOS <token>,` clause makes `v[1]` index a nil slice. */
  lemma PanicsWithoutVersionClause()
    ensures GetVersion(ClauselessJuniperDescr) == IndexOutOfRange
  {
    var s := ClauselessJuniperDescr;
    NoCiscoSignature(s);
    assert s[..7] == JuniperSignature;
    assert OccursAt(s, JuniperSignature, 0);
    assert NoMatchBetween(s, 0, |s|);
  }

  /**
    Corrected classifier: a Juniper sysDescr without a `JUNOS <token>,` clause is
    JUNOS with version "unknown" instead of a panic; every other input is classified
    exactly as `GetVersion` classifies it. Total: it never fails.
   */
  function Classify(s: string): (r: OSVersion)
    ensures GetVersion(s).Returned? ==> r == GetVersion(s).value
    ensures GetVersion(s).IndexOutOfRange? ==> r == OSVersion(JunOS, "unknown")
    ensures r.osType != Arista
    ensures r.osType == UnknownOS <==> r.version == ""
  {
    match GetVersion(s)
    case Returned(ov) =>
      ReturnedPairShape(s);
      ov
    case IndexOutOfRange => OSVersion(JunOS, "unknown")
  }

  /** On the input where `GetVersion` panics, the corrected classifier returns JUNOS, "unknown". */
  lemma ClassifyWithoutVersionClause()
    ensures Classify(ClauselessJuniperDescr) == OSVersion(JunOS, "unknown")
  {
    PanicsWithoutVersionClause();
  }
}
