/**
 * The per-reference staleness decision and row formatting, and the filter that
 * keeps the rows of the flagged references in key order.
 */
module Versions {
  import opened Wrappers
  import opened JsString

  /** What the registry lookup for an identity yields. */
  datatype Latest =
    | Tag(name: string)  // the latest release's `tag_name`
    | NoTag              // the response had no `tag_name`: the value is `undefined`
    | Failed             // network error, non-2xx status or bad JSON: logged, then "Unknown"

  /** The sentinel the lookup returns on failure. */
  const Unknown := "Unknown"
  const NameWidth := 40
  const VersionWidth := 20

  /** The JavaScript value `newVersion` holds; `None` is `undefined`. */
  function LatestValue(l: Latest): (v: Option<string>)
    ensures v.None? <==> l.NoTag?
    ensures l.Tag? ==> v == Some(l.name)
    ensures l.Failed? ==> v == Some(Unknown)
  {
    match l
    case Tag(name) => Some(name)
    case NoTag => None
    case Failed => Some(Unknown)
  }

  /** JavaScript truthiness of a string-or-undefined. */
  predicate Truthy(v: Option<string>)
  {
    v.Some? && v.value != ""
  }

  /** The major of a version: the text before its first `.`, or null when the
      version is empty or undefined. */
  function MajorOf(v: Option<string>): (m: Option<string>)
    ensures m.Some? <==> Truthy(v)
    ensures m.Some? ==> m.value == BeforeFirst(v.value, '.')
  {
    SplitHead(if v.Some? then v.value else "", '.');
    if Truthy(v) then Some(Split(v.value, '.')[0]) else None
  }

  /** How a template literal renders a string-or-undefined. */
  function Text(v: Option<string>): string
  {
    match v
    case Some(s) => s
    case None => "undefined"
  }

  /** A report row: identity padded to 40, pinned version padded to 20, then the
      latest version as the template literal renders it. */
  function Row(orgRepo: string, currentVersion: string, newVersion: Option<string>): string
  {
    PadEnd(orgRepo, NameWidth) + PadEnd(currentVersion, VersionWidth) + Text(newVersion)
  }

  /** The identity of a reference: the text before the first `@`. */
  function Identity(uses: string): (r: string)
    ensures '@' !in r
    ensures |r| <= |uses| && uses[..|r|] == r
    ensures '@' in uses <==> r != uses
    ensures r == uses || uses[|r|] == '@'
  {
    BeforeFirst(uses, '@')
  }

  /** The pinned version of a reference: the text between the first and the second
      `@` (or the end); absent when there is no `@`. */
  function Pinned(uses: string): (r: Option<string>)
    ensures r.None? <==> '@' !in uses
    ensures r.Some? ==> && '@' !in r.value
                        && |Identity(uses)| + 1 + |r.value| <= |uses|
                        && uses[..|Identity(uses)| + 1 + |r.value|] == Identity(uses) + ['@'] + r.value
    ensures r.Some? ==> var n := |Identity(uses)| + 1 + |r.value|; n == |uses| || uses[n] == '@'
  {
    if '@' in uses then
      var rest := AfterFirst(uses, '@');
      var pin := BeforeFirst(rest, '@');
      assert uses == Identity(uses) + ['@'] + rest;
      assert uses[..|Identity(uses)| + 1 + |pin|] == Identity(uses) + ['@'] + rest[..|pin|];
      Some(pin)
    else None
  }

  /** The callback run for each distinct reference: the row to report, or `null`
      when the reference is not flagged as outdated. */
  function Compare(uses: string, lookup: string -> Latest): Option<string>
  {
    var parts := Split(uses, '@');
    var orgRepo := parts[0];
    var currentVersion := if |parts| > 1 then Some(parts[1]) else None;
    var newVersion := LatestValue(lookup(orgRepo));
    var currentMajor := MajorOf(currentVersion);
    var newMajor := MajorOf(newVersion);
    if Truthy(currentMajor) && IndexOf(currentVersion.value, '.') == -1 && currentMajor != newMajor then
      Some(Row(orgRepo, currentVersion.value, newVersion))
    else if Truthy(currentVersion) && IndexOf(currentVersion.value, '.') != -1 && currentVersion != newVersion then
      Some(Row(orgRepo, currentVersion.value, newVersion))
    else
      None
  }

  /** The pieces `Compare` works on are the identity and the pinned version. */
  lemma ComparePieces(uses: string)
    ensures Split(uses, '@')[0] == Identity(uses)
    ensures (if |Split(uses, '@')| > 1 then Some(Split(uses, '@')[1]) else None) == Pinned(uses)
  {
    SplitHead(uses, '@');
    SplitSecond(uses, '@');
  }

  /** A bare pin (non-empty, no `.`) is flagged exactly when the latest version is
      empty or undefined, or its text before the first `.` differs from the pin. */
  lemma BarePinRule(uses: string, lookup: string -> Latest, pin: string)
    requires Pinned(uses) == Some(pin) && pin != "" && '.' !in pin
    ensures var latest := LatestValue(lookup(Identity(uses)));
            Compare(uses, lookup).Some? <==> !Truthy(latest) || pin != BeforeFirst(latest.value, '.')
  {
    ComparePieces(uses);
    assert BeforeFirst(pin, '.') == pin;
  }

  /** A dotted pin is flagged exactly when it differs from the whole latest version. */
  lemma DottedPinRule(uses: string, lookup: string -> Latest, pin: string)
    requires Pinned(uses) == Some(pin) && '.' in pin
    ensures Compare(uses, lookup).Some? <==> LatestValue(lookup(Identity(uses))) != Some(pin)
  {
    ComparePieces(uses);
  }

  /** A reference without `@`, or with nothing after it, is never flagged. */
  lemma NoPinNoRow(uses: string, lookup: string -> Latest)
    requires Pinned(uses) == None || Pinned(uses) == Some("")
    ensures Compare(uses, lookup) == None
  {
    ComparePieces(uses);
  }

  /** A flagged reference's row is built from its identity, its pin and the latest version. */
  lemma FlaggedRow(uses: string, lookup: string -> Latest)
    requires Compare(uses, lookup).Some?
    ensures Pinned(uses).Some?
    ensures Compare(uses, lookup).value
            == Row(Identity(uses), Pinned(uses).value, LatestValue(lookup(Identity(uses))))
  {
    ComparePieces(uses);
  }

  /** The row's columns: the identity padded with spaces to 40 columns, the pinned
      version padded to 20, then the latest version verbatim; nothing is cut. */
  lemma RowColumns(id: string, pin: string, newVersion: Option<string>)
    ensures var row, latest := Row(id, pin, newVersion), Text(newVersion);
            var w1 := if |id| > NameWidth then |id| else NameWidth;
            var w2 := w1 + if |pin| > VersionWidth then |pin| else VersionWidth;
            && |row| == w2 + |latest|
            && row[..|id|] == id
            && (forall i | |id| <= i < w1 :: row[i] == ' ')
            && row[w1..w1 + |pin|] == pin
            && (forall i | w1 + |pin| <= i < w2 :: row[i] == ' ')
            && row[w2..] == latest
  {
    Cells(id, NameWidth, pin, VersionWidth, Text(newVersion));
  }

  /** The row of a flagged reference, column by column. */
  lemma RowLayout(uses: string, lookup: string -> Latest)
    requires Compare(uses, lookup).Some?
    ensures Pinned(uses).Some?
    ensures var row, id, pin := Compare(uses, lookup).value, Identity(uses), Pinned(uses).value;
            var latest := Text(LatestValue(lookup(id)));
            var w1 := if |id| > NameWidth then |id| else NameWidth;
            var w2 := w1 + if |pin| > VersionWidth then |pin| else VersionWidth;
            && |row| == w2 + |latest|
            && row[..|id|] == id
            && (forall i | |id| <= i < w1 :: row[i] == ' ')
            && row[w1..w1 + |pin|] == pin
            && (forall i | w1 + |pin| <= i < w2 :: row[i] == ' ')
            && row[w2..] == latest
  {
    FlaggedRow(uses, lookup);
    var id, pin := Identity(uses), Pinned(uses).value;
    var nv := LatestValue(lookup(id));
    assert Compare(uses, lookup).value == Row(id, pin, nv);
    RowColumns(id, pin, nv);
  }

  /** A row is never empty, so the truthiness filter drops exactly the `null`s. */
  lemma RowIsTruthy(uses: string, lookup: string -> Latest)
    requires Compare(uses, lookup).Some?
    ensures |Compare(uses, lookup).value| >= NameWidth + VersionWidth
  {
  }

  /** When the lookup fails, a reference with a non-empty pin is flagged unless the
      pin is literally "Unknown", and its row ends with "Unknown". */
  lemma FailedLookupRow(uses: string, lookup: string -> Latest, pin: string)
    requires lookup(Identity(uses)) == Failed
    requires Pinned(uses) == Some(pin) && pin != ""
    ensures Compare(uses, lookup).Some? <==> pin != Unknown
    ensures Compare(uses, lookup).Some? ==>
              var row := Compare(uses, lookup).value;
              |row| >= |Unknown| && row[|row| - |Unknown|..] == Unknown
  {
    ComparePieces(uses);
    assert '.' !in Unknown;
    assert BeforeFirst(Unknown, '.') == Unknown;
    if '.' !in pin {
      assert BeforeFirst(pin, '.') == pin;
    }
  }

  /** When the release has no tag, every reference with a non-empty pin is flagged,
      and its row ends with "undefined". */
  lemma MissingTagRow(uses: string, lookup: string -> Latest, pin: string)
    requires lookup(Identity(uses)) == NoTag
    requires Pinned(uses) == Some(pin) && pin != ""
    ensures Compare(uses, lookup).Some?
    ensures var row := Compare(uses, lookup).value;
            |row| >= 9 && row[|row| - 9..] == "undefined"
  {
    ComparePieces(uses);
  }

  /** A reference's outcome depends on its identity and its pin alone. */
  lemma CompareByPieces(u1: string, u2: string, lookup: string -> Latest)
    requires Identity(u1) == Identity(u2) && Pinned(u1) == Pinned(u2)
    ensures Compare(u1, lookup) == Compare(u2, lookup)
  {
    ComparePieces(u1);
    ComparePieces(u2);
  }

  /** Text after a second `@` is ignored: distinct keys that differ only there give
      the same row (or both none). */
  lemma ThirdSegmentIgnored(id: string, pin: string, r1: string, r2: string, lookup: string -> Latest)
    requires '@' !in id && '@' !in pin
    ensures Compare(id + "@" + pin + "@" + r1, lookup) == Compare(id + "@" + pin + "@" + r2, lookup)
  {
    AtPieces(id, pin, r1);
    AtPieces(id, pin, r2);
    CompareByPieces(id + "@" + pin + "@" + r1, id + "@" + pin + "@" + r2, lookup);
  }

  lemma AtPieces(id: string, pin: string, rest: string)
    requires '@' !in id && '@' !in pin
    ensures Identity(id + "@" + pin + "@" + rest) == id
    ensures Pinned(id + "@" + pin + "@" + rest) == Some(pin)
  {
    var u := id + "@" + pin + "@" + rest;
    Unsplit(id, pin + "@" + rest);
    assert u == id + "@" + (pin + "@" + rest);
    assert AfterFirst(u, '@') == pin + "@" + rest;
    Unsplit(pin, rest);
  }

  /** The first `@` of `a + "@" + b` is the one after `a` when `a` has none. */
  lemma Unsplit(a: string, b: string)
    requires '@' !in a
    ensures '@' in a + "@" + b
    ensures BeforeFirst(a + "@" + b, '@') == a
    ensures AfterFirst(a + "@" + b, '@') == b
  {
    var s := a + "@" + b;
    assert s[|a|] == '@';
    assert s[..|a|] == a;
    assert s == a + ['@'] + b;
  }

  /** `Promise.all` over the callbacks: one result slot per key, in key order. */
  function Results(keys: seq<string>, lookup: string -> Latest): (rs: seq<Option<string>>)
    ensures |rs| == |keys|
  {
    seq(|keys|, i requires 0 <= i < |keys| => Compare(keys[i], lookup))
  }

  /** The truthiness filter over the results: the rows, dropping the `null`s. */
  function Present(results: seq<Option<string>>): (rows: seq<string>)
    ensures |rows| <= |results|
  {
    if results == [] then []
    else
      var last := results[|results| - 1];
      Present(results[..|results| - 1]) + (if last.Some? then [last.value] else [])
  }

  /** The rows reported for the distinct references `keys`. */
  function CompareVersions(keys: seq<string>, lookup: string -> Latest): (rows: seq<string>)
    ensures |rows| <= |keys|
  {
    Present(Results(keys, lookup))
  }

  /** The positions of the non-null results, in increasing order. */
  function FlaggedPositions(results: seq<Option<string>>): (ps: seq<nat>)
    ensures forall j | 0 <= j < |ps| :: ps[j] < |results| && results[ps[j]].Some?
    ensures forall i | 0 <= i < |results| && results[i].Some? :: i in ps
    ensures forall j, k | 0 <= j < k < |ps| :: ps[j] < ps[k]
  {
    if results == [] then []
    else
      var n := |results| - 1;
      var prev := FlaggedPositions(results[..n]);
      assert forall i | 0 <= i < n :: results[..n][i] == results[i];
      prev + (if results[n].Some? then [n] else [])
  }

  /** The filter keeps the non-null results in order: its j-th row is the j-th non-null result. */
  lemma {:induction false} PresentInOrder(results: seq<Option<string>>)
    ensures var rows, ps := Present(results), FlaggedPositions(results);
            && |rows| == |ps|
            && forall j | 0 <= j < |rows| :: rows[j] == results[ps[j]].value
  {
    if results != [] {
      var n := |results| - 1;
      var prefix := results[..n];
      PresentInOrder(prefix);
      assert forall i | 0 <= i < n :: prefix[i] == results[i];
      var rows, ps := Present(prefix), FlaggedPositions(prefix);
      var rows', ps' := Present(results), FlaggedPositions(results);
      if results[n].Some? {
        assert rows' == rows + [results[n].value];
        assert ps' == ps + [n];
      } else {
        assert rows' == rows && ps' == ps;
      }
      forall j | 0 <= j < |rows'|
        ensures rows'[j] == results[ps'[j]].value
      {
        if j < |rows| {
          assert rows'[j] == rows[j] && ps'[j] == ps[j];
        }
      }
    }
  }

  /** The report holds exactly one row per flagged key, in key order: the positions
      of the flagged keys, increasing, and the j-th row is the row of the j-th of them. */
  lemma RowsInKeyOrder(keys: seq<string>, lookup: string -> Latest)
    ensures var rows, ps := CompareVersions(keys, lookup), FlaggedPositions(Results(keys, lookup));
            && |rows| == |ps|
            && (forall i | 0 <= i < |keys| :: i in ps <==> Compare(keys[i], lookup).Some?)
            && (forall j, k | 0 <= j < k < |ps| :: ps[j] < ps[k])
            && forall j | 0 <= j < |rows| :: ps[j] < |keys| && rows[j] == Compare(keys[ps[j]], lookup).value
  {
    PresentInOrder(Results(keys, lookup));
  }
}
