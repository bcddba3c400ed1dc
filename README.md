# swan OS/version classifier, modelled in Dafny

swan polls network switches over SNMP and prints their identity and interface
counters. Its one piece of domain logic is the classifier in
`version/version_parser.go`: `GetVersion` takes the raw SNMP `sysDescr` string and
assigns it to Cisco IOS, Cisco NX-OS, JUNOS or Unknown. It applies an ordered,
first-match-wins cascade of signature tests: `Cisco Internetworking`, then `NX-OS`,
then `Juniper`. For JUNOS it also takes the version token out of the pattern
`JUNOS\s([0-9.a-zA-Z]+),`. `OSType.String()` maps the enumeration to display names.

The model (`version_parser.dfy`, module `VersionParser`; `wrappers.dfy` holds an
`Option` type) is pure, as the source is:

- `OSType` is a newtype over Go's 64-bit `int`, so values outside the five named
  constants exist, as in Go. `Name` is `String()`.
- The three literal regular expressions are a substring search, `Contains`. It is
  proved equal to a declarative "occurs somewhere" predicate.
- The version pattern is `MatchAt` (one start position) and `FindVersion`
  (leftmost match, as `FindStringSubmatch` does). Both are proved against
  `CapturesAt`, which says what the regular expression accepts with no search
  order. RE2's `\s` is one of tab, newline, form feed, carriage return or space.
  The class `[0-9.a-zA-Z]` excludes `,`. So at each start there is at most one
  capture, namely the maximal run of class characters, and it matches only when a
  comma follows the run.
- `GetVersion` returns `Outcome`. `Returned(pair)` is a normal return.
  `IndexOutOfRange` is the Go panic raised when `Juniper` is present but the
  version pattern matches nowhere: `FindStringSubmatch` returns nil and `v[1]`
  indexes it.
- `Classify` is the classifier with that fault fixed. It returns `(JUNOS, "unknown")`
  where `GetVersion` panics. It agrees with `GetVersion` on every other input.

## Model

| member | source | states |
|---|---|---|
| `VersionParser.Name` | version/version_parser.go:17-29 | The result is "Unknown" exactly when the value is none of CISCO_IOS, CISCO_NXOS, JUNOS, ARISTA. This covers UNKNOWN and every other int. The name is never empty. |
| `VersionParser.NameDistinguishesNamedTypes` | version/version_parser.go:17-29 | Two different named constants never share a display name. |
| `VersionParser.Contains` | version/version_parser.go:36-38 | MatchString on a literal signature is true exactly when the signature occurs somewhere in the string. |
| `VersionParser.RunLength` | version/version_parser.go:39 | The result is the length of the maximal run of `[0-9.a-zA-Z]` characters: every character in it is in the class, and the next one is not (or the string ends). |
| `VersionParser.RunLengthIsExact` | version/version_parser.go:39 | A run of class characters that ends at a non-class character is the maximal run. |
| `VersionParser.CaptureIsMaximalRun` | version/version_parser.go:39 | Any capture of a match at a given start is exactly the maximal class run after `JUNOS\s`; that run is non-empty and followed by a comma. |
| `VersionParser.MaximalRunCaptures` | version/version_parser.go:39 | After `JUNOS\s`, a non-empty maximal run followed by `,` is a match whose group is that run. |
| `VersionParser.MatchAt` | version/version_parser.go:39 | The pattern matched at one start position: a returned capture is a match of `JUNOS\s([0-9.a-zA-Z]+),` there, and every match at that start is the one returned, so each start has at most one capture and None means none. |
| `VersionParser.FindVersionFrom` | version/version_parser.go:53 | The search returns None exactly when no match starts in the range searched. Otherwise it returns the capture of the leftmost match. |
| `VersionParser.FindVersion` | version/version_parser.go:53 | FindStringSubmatch(str)[1]: None exactly when the pattern matches nowhere (Go's nil slice). Otherwise the capture of the leftmost match. |
| `VersionParser.LeftmostCaptureIsUnique` | version/version_parser.go:53 | Two leftmost captures of one string are equal, so the extraction is deterministic. |
| `VersionParser.FoundVersionIsToken` | version/version_parser.go:54 | An extracted version is non-empty, contains only digits, `.` and ASCII letters, and contains no comma. |
| `VersionParser.GetVersion` | version/version_parser.go:41-58 | Never returns ARISTA. It panics exactly when neither Cisco signature is present, `Juniper` is, and the version pattern matches nowhere. |
| `VersionParser.CiscoIOSComesFirst` | version/version_parser.go:45-47 | Any string containing `Cisco Internetworking` gives (CISCO_IOS, "unknown"), whatever else it contains. |
| `VersionParser.CiscoNXOSComesSecond` | version/version_parser.go:48-50 | Without `Cisco Internetworking`, any string containing `NX-OS` gives (CISCO_NXOS, "unknown"), even if `Juniper` is present. |
| `VersionParser.JuniperComesThird` | version/version_parser.go:51-54 | With `Juniper` and neither Cisco signature: if the version pattern matches, the result is JUNOS with the capture of the leftmost match. The result is the panic exactly when the pattern matches nowhere. |
| `VersionParser.NoSignatureIsUnknown` | version/version_parser.go:41-58 | With none of the three signatures, the result is (UNKNOWN, ""). |
| `VersionParser.ReturnedPairShape` | version/version_parser.go:41-58 | A returned pair is never ARISTA. Both Cisco types carry "unknown". The version is "" exactly for UNKNOWN. A JUNOS version is a class token. |
| `VersionParser.JuniperWithClause` | version/version_parser.go:51-54 | Take `Juniper`, then filler text, then `JUNOS`, one whitespace character, a token and `,`. If the filler and the token contain no C or X, and the filler contains no U, the result is (JUNOS, token). |
| `VersionParser.JunOSVersionCanReadUnknown` | version/version_parser.go:51-54 | "Juniper JUNOS unknown," gives (JUNOS, "unknown"), so the version "unknown" does not by itself identify the Cisco types. |
| `VersionParser.JuniperExample` | version/version_parser.go:51-54 | "Juniper Networks JUNOS 12.3R9," gives (JUNOS, "12.3R9"). |
| `VersionParser.VersionClauseWithoutJuniperIsUnknown` | version/version_parser.go:41-58 | "JUNOS 1.2," without the vendor signature gives (UNKNOWN, ""). |
| `VersionParser.PanicsWithoutVersionClause` | version/version_parser.go:53-54 | On "Juniper JUNOS" the Go code indexes a nil slice: the outcome is IndexOutOfRange. |
| `VersionParser.Classify` | version/version_parser.go:41-58 | The corrected classifier is total. It equals GetVersion's pair wherever GetVersion returns, and gives (JUNOS, "unknown") where GetVersion panics. It never returns ARISTA, and the version is "" exactly for UNKNOWN. |
| `VersionParser.ClassifyWithoutVersionClause` | version/version_parser.go:53-54 | On "Juniper JUNOS" the corrected classifier returns (JUNOS, "unknown"). |

## Left out

- net/snmp.go: session setup, the GET and WALK calls into the gosnmp library, and
  the PDU type assertions. This is network I/O through a library that is not part of this model.
- cmd/swan.go: the argument check and the printf report. This is command-line plumbing.
- General regular-expression semantics: only the four patterns the classifier uses are modelled.
- Go strings are UTF-8 byte sequences; the model works on Unicode characters.
  All four patterns are ASCII, so only invalid UTF-8 input could behave differently. That input is not modelled.
- `OSType` assumes Go's `int` is 64 bits wide. Nothing in the classifier depends on the width.
- Idempotence of classification needs no lemma: `GetVersion` and `Classify` are
  Dafny functions, so equal inputs give equal results.

## Findings

| source | as written | input that shows it | evidently intended | confidence | as-written member | corrected member |
|---|---|---|---|---|---|---|
| version/version_parser.go:53-54 | `v[1]` indexes the result of `FindStringSubmatch` without checking it for nil | "Juniper JUNOS" (Juniper signature, no `JUNOS <token>,` clause) | classify as JUNOS with version "unknown" instead of panicking | high; not executed | `VersionParser.PanicsWithoutVersionClause` | `VersionParser.Classify` |
