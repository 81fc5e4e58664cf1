/** Go's `strings.SplitN(s, sep, 2)` and `strings.Split`, specialised to a
    one-character separator, with the searches they are built on and `Join`
    as the reference inverse of `Split`. */
module GoStrings {
  import opened Wrappers

  /** Position of the first occurrence of `c` in `s`: the search inside
      `SplitN` and `Split`. */
  function Index(s: string, c: char): (r: Option<nat>)
    ensures r.None? <==> c !in s
    ensures r.Some? ==> r.value < |s| && s[r.value] == c && c !in s[..r.value]
  {
    if |s| == 0 then None
    else if s[0] == c then Some(0)
    else match Index(s[1..], c)
      case None => None
      case Some(i) =>
        assert s[..i + 1] == [s[0]] + s[1..][..i];
        Some(i + 1)
  }

  /** Position of the last occurrence of `c` in `s`: where a pattern
      anchored as `^(.*)/([^/]*)$` must split. */
  function LastIndex(s: string, c: char): (r: Option<nat>)
    ensures r.None? <==> c !in s
    ensures r.Some? ==> r.value < |s| && s[r.value] == c && c !in s[r.value + 1..]
  {
    if |s| == 0 then None
    else if s[|s| - 1] == c then Some(|s| - 1)
    else
      var r := LastIndex(s[..|s| - 1], c);
      assert s == s[..|s| - 1] + [s[|s| - 1]];
      r
  }

  /** Any position holding the first `c` is the one `Index` finds. */
  lemma IndexAt(s: string, c: char, i: nat)
    requires i < |s| && s[i] == c && c !in s[..i]
    ensures Index(s, c) == Some(i)
  {
  }

  /** Any position holding the last `c` is the one `LastIndex` finds. */
  lemma LastIndexAt(s: string, c: char, i: nat)
    requires i < |s| && s[i] == c && c !in s[i + 1..]
    ensures LastIndex(s, c) == Some(i)
  {
  }

  /** `strings.SplitN(s, string(sep), 2)`: the text before the first `sep`
      and everything after it, or `[s]` alone when `sep` does not occur. */
  function SplitFirst(s: string, sep: char): (parts: seq<string>)
    ensures |parts| == (if sep in s then 2 else 1)
    ensures |parts| == 1 ==> parts[0] == s
    ensures |parts| == 2 ==> s == parts[0] + [sep] + parts[1] && sep !in parts[0]
  {
    match Index(s, sep)
    case None => [s]
    case Some(i) =>
      assert s == s[..i] + [sep] + s[i + 1..];
      [s[..i], s[i + 1..]]
  }

  /** The decomposition at the first `sep` is the one `SplitFirst` returns,
      whatever the part after it holds. */
  lemma SplitFirstAt(head: string, sep: char, tail: string)
    requires sep !in head
    ensures SplitFirst(head + [sep] + tail, sep) == [head, tail]
  {
    var s := head + [sep] + tail;
    assert s[..|head|] == head;
    IndexAt(s, sep, |head|);
    assert s[|head| + 1..] == tail;
  }

  /** Pieces with `sep` between them: the reference inverse of `Split`. */
  function Join(pieces: seq<string>, sep: char): string
  {
    if |pieces| == 0 then []
    else if |pieces| == 1 then pieces[0]
    else pieces[0] + [sep] + Join(pieces[1..], sep)
  }

  /** `strings.Split(s, string(sep))`: the pieces between the occurrences
      of `sep`; there is always one more piece than there are separators. */
  function Split(s: string, sep: char): (pieces: seq<string>)
    ensures |pieces| >= 1
    ensures forall k :: 0 <= k < |pieces| ==> sep !in pieces[k]
    ensures |pieces| == 1 <==> sep !in s
    decreases |s|
  {
    match Index(s, sep)
    case None => [s]
    case Some(i) => [s[..i]] + Split(s[i + 1..], sep)
  }

  /** At the first `sep`, `Split` takes the text before it as a piece and
      splits the text after it. */
  lemma SplitAtFirst(s: string, sep: char, i: nat)
    requires i < |s| && s[i] == sep && sep !in s[..i]
    ensures Split(s, sep) == [s[..i]] + Split(s[i + 1..], sep)
  {
    IndexAt(s, sep, i);
  }

  /** Without `sep`, `Split` gives the text as its only piece. */
  lemma SplitAbsent(s: string, sep: char)
    requires sep !in s
    ensures Split(s, sep) == [s]
  {
  }

  /** Joining a first piece in front of the pieces of the text after the
      `sep` at `i` gives back the whole text. */
  lemma JoinCons(s: string, sep: char, i: nat, rest: seq<string>)
    requires i < |s| && s[i] == sep && |rest| >= 1 && Join(rest, sep) == s[i + 1..]
    ensures Join([s[..i]] + rest, sep) == s
  {
    var pieces := [s[..i]] + rest;
    assert pieces[0] == s[..i] && pieces[1..] == rest;
    assert s == s[..i] + [sep] + s[i + 1..];
  }

  /** Joining undoes splitting: the pieces with `sep` between them give
      back the original text. */
  lemma {:induction false} JoinSplit(s: string, sep: char)
    ensures Join(Split(s, sep), sep) == s
    decreases |s|
  {
    SplitUnfold(s, sep);
    match Index(s, sep)
    case None =>
    case Some(i) =>
      JoinSplit(s[i + 1..], sep);
      JoinCons(s, sep, i, Split(s[i + 1..], sep));
  }

  /** One step of `Split`: the text before the first `sep`, then the
      pieces of the text after it. */
  lemma SplitUnfold(s: string, sep: char)
    ensures Index(s, sep).None? ==> Split(s, sep) == [s]
    ensures Index(s, sep).Some? ==>
      Split(s, sep) == [s[..Index(s, sep).value]] + Split(s[Index(s, sep).value + 1..], sep)
  {
  }

  /** The first piece of `Split` runs up to the first `sep`, or to the end. */
  lemma SplitFirstPiece(t: string, sep: char) returns (j: nat)
    ensures j <= |t| && Split(t, sep)[0] == t[..j]
    ensures j == |t| || t[j] == sep
  {
    SplitUnfold(t, sep);
    match Index(t, sep)
    case None => j := |t|;
    case Some(k) => j := k;
  }

  /** Text made of a head, `sep` and a second piece, as a prefix of `s`. */
  lemma LeadingPiecesPrefix(s: string, sep: char, i: nat, j: nat)
    requires i < |s| && s[i] == sep && j <= |s[i + 1..]|
    ensures i + 1 + j <= |s|
    ensures s[..i + 1 + j] == s[..i] + [sep] + s[i + 1..][..j]
    ensures i + 1 + j < |s| ==> s[i + 1 + j] == s[i + 1..][j]
  {
  }

  /** When `sep` occurs, `s` starts with the first piece, `sep` and the
      second piece, and whatever follows them is empty or starts with `sep`. */
  lemma SplitLeadingPieces(s: string, sep: char)
    requires sep in s
    ensures |Split(s, sep)| >= 2
    ensures var p := Split(s, sep); var n := |p[0]| + 1 + |p[1]|;
      n <= |s| && s[..n] == p[0] + [sep] + p[1] && (n == |s| || s[n] == sep)
  {
    var i := Index(s, sep).value;
    var t := s[i + 1..];
    SplitUnfold(s, sep);
    var j := SplitFirstPiece(t, sep);
    LeadingPiecesPrefix(s, sep, i, j);
    var p := Split(s, sep);
    assert p[0] == s[..i] && p[1] == t[..j];
  }

  /** Splitting undoes joining: `Split` and `Join` are inverse on
      separator-free pieces. */
  lemma {:induction false} SplitJoin(pieces: seq<string>, sep: char)
    requires |pieces| >= 1
    requires forall k :: 0 <= k < |pieces| ==> sep !in pieces[k]
    ensures Split(Join(pieces, sep), sep) == pieces
    decreases |pieces|
  {
    if |pieces| == 1 {
    } else {
      var tail := Join(pieces[1..], sep);
      SplitJoin(pieces[1..], sep);
      SplitFirstAt(pieces[0], sep, tail);
      var s := pieces[0] + [sep] + tail;
      assert s[..|pieces[0]|] == pieces[0];
      IndexAt(s, sep, |pieces[0]|);
      assert s[|pieces[0]| + 1..] == tail;
      assert pieces == [pieces[0]] + pieces[1..];
    }
  }
}
