/**
 * The program's top level: count the references, print the header, compare each
 * distinct reference with its latest release, print the rows or a fallback line.
 */
module Report {
  import opened JsString
  import opened YamlTree
  import opened Usage
  import opened Versions

  /** Printed instead of rows when no reference is flagged. */
  const NoNewVersions := "No new versions found."

  /** The header-width fold: the longest identity among the keys, starting from 0. */
  function LongestIdentity(keys: seq<string>): nat
  {
    if keys == [] then 0
    else
      var longest := LongestIdentity(keys[..|keys| - 1]);
      var len := |Split(keys[|keys| - 1], '@')[0]|;
      if longest > len then longest else len
  }

  /** The fold yields the length of the longest identity among the keys, 0 when
      there are none. */
  lemma {:induction false} LongestIdentityIsMax(keys: seq<string>)
    ensures forall k <- keys :: |Identity(k)| <= LongestIdentity(keys)
    ensures keys == [] ==> LongestIdentity(keys) == 0
    ensures keys != [] ==> exists k <- keys :: |Identity(k)| == LongestIdentity(keys)
  {
    if keys != [] {
      var prefix, name := keys[..|keys| - 1], keys[|keys| - 1];
      LongestIdentityIsMax(prefix);
      SplitHead(name, '@');
      assert forall k <- keys :: k in prefix || k == name;
      assert forall k <- prefix :: k in keys;
      assert name in keys;
    }
  }

  /** The header line: "Name" padded to `width`, "Current Version" padded to 20,
      then "New Version". */
  function Header(width: int): string
  {
    PadEnd("Name", width) + PadEnd("Current Version", VersionWidth) + "New Version"
  }

  /** The header's layout: "Current Version" starts at the larger of 4 and the
      longest identity plus 2, and "New Version" 20 columns after it. */
  lemma HeaderColumns(keys: seq<string>)
    ensures var h, c := Header(LongestIdentity(keys) + 2), Column(keys);
            && |h| == c + VersionWidth + 11
            && h[..4] == "Name"
            && (forall i | 4 <= i < c :: h[i] == ' ')
            && h[c..c + 15] == "Current Version"
            && (forall i | c + 15 <= i < c + VersionWidth :: h[i] == ' ')
            && h[c + VersionWidth..] == "New Version"
  {
    Cells("Name", LongestIdentity(keys) + 2, "Current Version", VersionWidth, "New Version");
  }

  /** The column where the header puts "Current Version". */
  function Column(keys: seq<string>): nat
  {
    if LongestIdentity(keys) + 2 > 4 then LongestIdentity(keys) + 2 else 4
  }

  /** Rows put the pinned version at column 40 (or later, for a longer identity),
      so the header lines up with a row whose identity fits in 40 columns exactly
      when the longest identity is 38 characters long. */
  lemma HeaderAlignment(keys: seq<string>)
    ensures Column(keys) == NameWidth <==> LongestIdentity(keys) == NameWidth - 2
  {
  }

  /** No row is the fallback line: rows are at least 60 characters long. */
  lemma NoRowIsFallback(keys: seq<string>, lookup: string -> Latest)
    ensures NoNewVersions !in CompareVersions(keys, lookup)
  {
    var rows := CompareVersions(keys, lookup);
    RowsInKeyOrder(keys, lookup);
    var ps := FlaggedPositions(Results(keys, lookup));
    forall j | 0 <= j < |rows|
      ensures rows[j] != NoNewVersions
    {
      RowIsTruthy(keys[ps[j]], lookup);
    }
  }

  /** What `main` prints after the header line `header`: every row, or the
      fallback line when there is none. */
  function Lines(header: string, rows: seq<string>): seq<string>
  {
    [header] + (if rows == [] then [NoNewVersions] else rows)
  }

  /** The lines the program prints for the distinct references `keys`. */
  function Report(keys: seq<string>, lookup: string -> Latest): seq<string>
  {
    Lines(Header(LongestIdentity(keys) + 2), CompareVersions(keys, lookup))
  }

  /** The output is the header followed by the fallback line when there are no
      rows, and by the rows in order otherwise; when no row is the fallback text,
      the fallback line appears exactly when there are no rows. */
  lemma LinesShape(header: string, rows: seq<string>)
    ensures |Lines(header, rows)| >= 2
    ensures Lines(header, rows)[0] == header
    ensures rows == [] ==> Lines(header, rows)[1..] == [NoNewVersions]
    ensures rows != [] ==> Lines(header, rows)[1..] == rows
    ensures NoNewVersions !in rows ==> (NoNewVersions in Lines(header, rows)[1..] <==> rows == [])
  {
    assert Lines(header, rows)[1..] == if rows == [] then [NoNewVersions] else rows;
  }

  /** The report carries the fallback line exactly when no reference is flagged. */
  lemma ReportFallback(keys: seq<string>, lookup: string -> Latest)
    ensures NoNewVersions in Report(keys, lookup)[1..] <==> CompareVersions(keys, lookup) == []
  {
    NoRowIsFallback(keys, lookup);
    LinesShape(Header(LongestIdentity(keys) + 2), CompareVersions(keys, lookup));
  }

  /** How often a reference is used does not matter: a document that only repeats
      references already seen leaves the report unchanged. */
  lemma RepeatsLeaveReport(docs: seq<Yaml>, doc: Yaml, lookup: string -> Latest)
    requires forall u <- DocUses(doc) :: u in AllUses(docs)
    ensures Report(FirstOccurrences(AllUses(docs + [doc])), lookup) == Report(FirstOccurrences(AllUses(docs)), lookup)
  {
    RepeatsAddNoKey(docs, doc);
  }

  /**
   * Everything after the walk, given the distinct references `keys`: the header
   * line, then either every row, in key order, or the fallback line.
   */
  method PrintReport(keys: seq<string>, lookup: string -> Latest) returns (lines: seq<string>)
    ensures lines == Report(keys, lookup)
  {
    var longest := LongestIdentity(keys);
    var header := Header(longest + 2);
    lines := [header];
    var updates := CompareVersions(keys, lookup);
    if |updates| > 0 {
      for i := 0 to |updates|
        invariant lines == [header] + updates[..i]
      {
        lines := lines + [updates[i]];
        assert updates[..i + 1] == updates[..i] + [updates[i]];
      }
      assert updates[..|updates|] == updates;
    } else {
      lines := lines + [NoNewVersions];
    }
  }

  /**
   * The whole run on already-parsed documents, with the registry as `lookup`:
   * count the references, then report on the distinct ones in the order of
   * their first occurrence.
   */
  method Run(docs: seq<Yaml>, lookup: string -> Latest) returns (lines: seq<string>)
    requires forall d <- docs :: Walkable(d)
    ensures lines == Report(FirstOccurrences(AllUses(docs)), lookup)
  {
    var usage := ReadYamlFiles(docs);
    lines := PrintReport(usage.order, lookup);
  }
}
