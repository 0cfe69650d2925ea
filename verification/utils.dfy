/**
  The byte scanner and splitter (src/utils.rs).

  `scan` walks the data once with a counter of pattern bytes matched so far.
  On a mismatch the counter drops to 0 and the byte that broke the match is
  NOT compared with the first pattern byte again, so an occurrence that starts
  at that byte is missed (see `ScanMissesRestartedMatch`). `split` cuts the
  data at each separator that `scan` finds.
*/
module Utils {
  import opened Wrappers
  import opened Bytes

  /**
    What `scan`'s loop returns when it reaches byte `i` having matched the
    first `found` bytes of the pattern just before it.
  */
  function ScanFrom(data: bytes, pat: bytes, i: nat, found: nat): (r: Option<nat>)
    requires i <= |data| && found < |pat|
    requires found <= i && data[i - found..i] == pat[..found]
    ensures r.Some? ==> i < r.value + |pat| <= |data| && data[r.value..r.value + |pat|] == pat
    decreases |data| - i
  {
    if i == |data| then None
    else if data[i] == pat[found] then
      assert data[i - found..i + 1] == data[i - found..i] + [data[i]];
      assert pat[..found + 1] == pat[..found] + [pat[found]];
      if found + 1 == |pat| then Some(i + 1 - |pat|)
      else ScanFrom(data, pat, i + 1, found + 1)
    else ScanFrom(data, pat, i + 1, 0)
  }

  /**
    The result of `scan(data, pat)`. The source indexes `pat[found]` for every
    data byte, so an empty pattern is only allowed with empty data.
  */
  function ScanSpec(data: bytes, pat: bytes): (r: Option<nat>)
    requires |pat| > 0 || |data| == 0
    ensures |pat| > |data| ==> r == None
    ensures r.Some? ==> r.value + |pat| <= |data| && data[r.value..r.value + |pat|] == pat
  {
    if |pat| > |data| || |data| == 0 then None else ScanFrom(data, pat, 0, 0)
  }

  method Scan(data: bytes, pat: bytes) returns (r: Option<nat>)
    requires |pat| > 0 || |data| == 0
    ensures r == ScanSpec(data, pat)
  {
    if |pat| > |data| {
      return None;
    }
    var found := 0;
    for i := 0 to |data|
      invariant |data| > 0 ==> found < |pat|
      invariant found <= i && data[i - found..i] == pat[..found]
      invariant |data| > 0 ==> ScanFrom(data, pat, i, found) == ScanSpec(data, pat)
    {
      if data[i] == pat[found] {
        assert data[i - found..i + 1] == data[i - found..i] + [data[i]];
        assert pat[..found + 1] == pat[..found] + [pat[found]];
        found := found + 1;
        if found == |pat| {
          return Some(i + 1 - |pat|);
        }
      } else {
        found := 0;
      }
    }
    return None;
  }

  lemma {:induction false} ScanFromLeadingMatch(data: bytes, pat: bytes, i: nat)
    requires i < |pat| && StartsWith(data, pat)
    ensures ScanFrom(data, pat, i, i) == Some(0)
    decreases |pat| - i
  {
    if i + 1 < |pat| {
      assert data[i + 1 - (i + 1)..i + 1] == pat[..i + 1];
      ScanFromLeadingMatch(data, pat, i + 1);
    }
  }

  /** When the data starts with the pattern, `scan` returns 0. */
  lemma ScanFindsLeadingMatch(data: bytes, pat: bytes)
    requires |pat| > 0 && StartsWith(data, pat)
    ensures ScanSpec(data, pat) == Some(0)
  {
    ScanFromLeadingMatch(data, pat, 0);
  }

  /**
    `scan("aab", "ab")` finds nothing although "ab" starts at 1: the second
    'a' breaks the match and is not tried as a new start.
  */
  lemma ScanMissesRestartedMatch()
    ensures var data: bytes := [97, 97, 98];
      data[1..3] == [97, 98] && ScanSpec(data, [97, 98]) == None
  {
    var data: bytes := [97, 97, 98];
    var pat: bytes := [97, 98];
    assert ScanFrom(data, pat, 2, 0) == None;
    assert ScanFrom(data, pat, 1, 1) == None;
  }

  /**
    The fragments of `split(data, sep)`: the data before each separator
    `scan` finds, then the remainder once `scan` finds none.
  */
  function SplitSpec(data: bytes, sep: bytes): (r: seq<bytes>)
    requires |sep| > 0 || |data| == 0
    ensures |r| >= 1
    decreases |data|
  {
    match ScanSpec(data, sep)
    case None => [data]
    case Some(pos) => [data[..pos]] + SplitSpec(data[pos + |sep|..], sep)
  }

  method Split(data: bytes, sep: bytes) returns (frags: seq<bytes>)
    requires |sep| > 0 || |data| == 0
    ensures frags == SplitSpec(data, sep)
  {
    var rest := data;
    frags := [];
    var pos := Scan(rest, sep);
    while pos.Some?
      invariant |sep| > 0 || |rest| == 0
      invariant pos == ScanSpec(rest, sep)
      invariant frags + SplitSpec(rest, sep) == SplitSpec(data, sep)
      decreases |rest|
    {
      var next := rest[pos.value + |sep|..];
      assert SplitSpec(rest, sep) == [rest[..pos.value]] + SplitSpec(next, sep);
      AppendAssoc(frags, [rest[..pos.value]], SplitSpec(next, sep));
      frags := frags + [rest[..pos.value]];
      rest := next;
      pos := Scan(rest, sep);
    }
    assert SplitSpec(rest, sep) == [rest];
    frags := frags + [rest];
  }

  /** The last fragment holds no separator that `scan` would find. */
  lemma {:induction false} SplitLastHasNoSeparator(data: bytes, sep: bytes)
    requires |sep| > 0
    ensures var frags := SplitSpec(data, sep); ScanSpec(frags[|frags| - 1], sep) == None
    decreases |data|
  {
    match ScanSpec(data, sep)
    case None =>
    case Some(pos) =>
      SplitLastHasNoSeparator(data[pos + |sep|..], sep);
  }

  /** Nothing is lost or invented: the fragments joined with the separator give back the data. */
  lemma {:induction false} SplitJoin(data: bytes, sep: bytes)
    requires |sep| > 0 || |data| == 0
    ensures Join(SplitSpec(data, sep), sep) == data
    decreases |data|
  {
    match ScanSpec(data, sep)
    case None =>
    case Some(pos) =>
      var rest := SplitSpec(data[pos + |sep|..], sep);
      SplitJoin(data[pos + |sep|..], sep);
      assert SplitSpec(data, sep) == [data[..pos]] + rest;
      assert ([data[..pos]] + rest)[1..] == rest;
      calc {
        Join(SplitSpec(data, sep), sep);
        data[..pos] + sep + Join(rest, sep);
        data[..pos] + data[pos..pos + |sep|] + data[pos + |sep|..];
        data;
      }
  }
}
