/**
 * The JavaScript string built-ins the tool relies on, for a single-character
 * separator: `indexOf`, `split` and `padEnd`.
 */
module JsString {

  /** `s.indexOf(c)`: the position of the first `c` in `s`, or -1 when there is none. */
  function IndexOf(s: string, c: char): (r: int)
    ensures -1 <= r < |s|
    ensures r == -1 <==> c !in s
    ensures r >= 0 ==> s[r] == c && c !in s[..r]
  {
    if |s| == 0 then -1
    else if s[0] == c then 0
    else
      var t := IndexOf(s[1..], c);
      if t == -1 then -1
      else
        assert s[..t + 1] == [s[0]] + s[1..][..t];
        t + 1
  }

  /** The text before the first `c`, or all of `s` when `c` does not occur. */
  function BeforeFirst(s: string, c: char): (r: string)
    ensures c !in r
    ensures |r| <= |s| && s[..|r|] == r
    ensures r == s || s[|r|] == c
  {
    var i := IndexOf(s, c);
    if i == -1 then s else s[..i]
  }

  /** The text after the first `c`; only meaningful when `c` occurs. */
  function AfterFirst(s: string, c: char): (r: string)
    requires c in s
    ensures s == BeforeFirst(s, c) + [c] + r
  {
    var i := IndexOf(s, c);
    assert s == s[..i] + [c] + s[i + 1..];
    s[i + 1..]
  }

  /** `s.split(c)`: the maximal `c`-free pieces of `s`, in order; never empty. */
  function Split(s: string, c: char): (parts: seq<string>)
    ensures |parts| >= 1
    ensures forall i | 0 <= i < |parts| :: c !in parts[i]
    decreases |s|
  {
    var i := IndexOf(s, c);
    if i == -1 then [s] else [s[..i]] + Split(s[i + 1..], c)
  }

  /** `parts.join(c)`, the inverse of `Split`. */
  function Join(parts: seq<string>, c: char): string
  {
    if |parts| == 0 then ""
    else if |parts| == 1 then parts[0]
    else parts[0] + [c] + Join(parts[1..], c)
  }

  /** The first piece of a split is the text before the first separator. */
  lemma SplitHead(s: string, c: char)
    ensures Split(s, c)[0] == BeforeFirst(s, c)
  {
  }

  /** A split has a second piece exactly when the separator occurs, and that piece
      is the text between the first and the second separator (or the end). */
  lemma SplitSecond(s: string, c: char)
    ensures |Split(s, c)| >= 2 <==> c in s
    ensures c in s ==> Split(s, c)[1] == BeforeFirst(AfterFirst(s, c), c)
  {
    if c in s {
      SplitHead(AfterFirst(s, c), c);
    }
  }

  /** The first `c` is at `k` when `s[k]` is a `c` and no `c` comes before it. */
  lemma IndexOfAt(s: string, c: char, k: int)
    requires 0 <= k < |s| && s[k] == c && c !in s[..k]
    ensures IndexOf(s, c) == k
  {
  }

  lemma JoinCons(head: string, tail: seq<string>, c: char)
    requires |tail| >= 1
    ensures Join([head] + tail, c) == head + [c] + Join(tail, c)
  {
    assert ([head] + tail)[1..] == tail;
  }

  /** A split is the text before the first separator followed by the split of
      the text after it. */
  lemma SplitCons(s: string, c: char)
    requires c in s
    ensures Split(s, c) == [BeforeFirst(s, c)] + Split(AfterFirst(s, c), c)
  {
  }

  /** Joining the pieces of a split gives back the original text. */
  lemma {:induction false} JoinSplit(s: string, c: char)
    ensures Join(Split(s, c), c) == s
    decreases |s|
  {
    if c in s {
      var head, rest := BeforeFirst(s, c), AfterFirst(s, c);
      SplitCons(s, c);
      JoinCons(head, Split(rest, c), c);
      JoinSplit(rest, c);
    }
  }

  /** Splitting a join of separator-free pieces gives back the pieces. */
  lemma {:induction false} SplitJoin(parts: seq<string>, c: char)
    requires |parts| >= 1
    requires forall i | 0 <= i < |parts| :: c !in parts[i]
    ensures Split(Join(parts, c), c) == parts
    decreases |parts|
  {
    if |parts| > 1 {
      var head, tail := parts[0], Join(parts[1..], c);
      var s := head + [c] + tail;
      assert Join(parts, c) == s;
      assert s[..|head|] == head;
      IndexOfAt(s, c, |head|);
      assert s[|head| + 1..] == tail;
      assert Split(s, c) == [head] + Split(tail, c);
      assert c !in parts[1..][0];
      SplitJoin(parts[1..], c);
      assert parts == [head] + parts[1..];
    }
  }

  /** A run of `n` spaces. */
  function Spaces(n: nat): (r: string)
    ensures |r| == n
    ensures forall i | 0 <= i < n :: r[i] == ' '
  {
    if n == 0 then "" else Spaces(n - 1) + " "
  }

  /** `s.padEnd(n)`: `s` followed by spaces up to length `n`; never truncates. */
  function PadEnd(s: string, n: int): (r: string)
    ensures |r| == if |s| >= n then |s| else n
    ensures r[..|s|] == s
    ensures forall i | |s| <= i < |r| :: r[i] == ' '
  {
    if |s| >= n then s else s + Spaces(n - |s|)
  }

  /** Two padded cells followed by free text: each cell starts where the previous
      one's padding ends, and nothing is cut. */
  lemma Cells(a: string, n: int, b: string, m: int, c: string)
    ensures var row, w1 := PadEnd(a, n) + PadEnd(b, m) + c, |PadEnd(a, n)|;
            var w2 := w1 + |PadEnd(b, m)|;
            && |row| == w2 + |c|
            && row[..|a|] == a
            && (forall i | |a| <= i < w1 :: row[i] == ' ')
            && row[w1..w1 + |b|] == b
            && (forall i | w1 + |b| <= i < w2 :: row[i] == ' ')
            && row[w2..] == c
  {
  }
}
