/**
  Bytes and text.

  Rust's `&str` is a byte slice that is valid UTF-8, so text is modelled as a
  sequence of bytes throughout, and `Utf8Valid` says when a conversion such as
  `String::from_utf8` succeeds. The string operations the server calls
  (`trim`, `to_lowercase`, `split`, `splitn(2, _)`, `lines`,
  `split_whitespace`, `starts_with`, `ends_with`, `is_char_boundary`, and
  `{}` formatting of a `usize`) are defined here on bytes; `trim`,
  `split_whitespace` and `to_lowercase` are restricted to ASCII.
*/
module Bytes {
  import opened Wrappers

  type byte = b: int | 0 <= b < 256
  type bytes = seq<byte>

  /** The bytes of an ASCII string literal. */
  function Ascii(s: string): (r: bytes)
    requires forall i :: 0 <= i < |s| ==> s[i] as int < 128
    ensures |r| == |s|
    ensures forall i :: 0 <= i < |s| ==> r[i] == s[i] as int
  {
    seq(|s|, i requires 0 <= i < |s| => s[i] as int)
  }

  const TAB: byte := 9
  const LF: byte := 10
  const CR: byte := 13
  const SPACE: byte := 32
  const AMPERSAND: byte := 38
  const COLON: byte := 58
  const SEMICOLON: byte := 59
  const EQUALS: byte := 61
  const QUESTION: byte := 63
  const CRLF: bytes := [CR, LF]
  const CRLFCRLF: bytes := [CR, LF, CR, LF]

  /** `char::is_whitespace` on ASCII: tab, LF, VT, FF, CR and space. */
  predicate IsSpace(b: byte) {
    b == SPACE || TAB <= b <= CR
  }

  predicate IsUpper(b: byte) {
    65 <= b <= 90
  }

  predicate IsDigit(b: byte) {
    48 <= b <= 57
  }

  predicate StartsWith(s: bytes, prefix: bytes) {
    |prefix| <= |s| && s[..|prefix|] == prefix
  }

  predicate EndsWith(s: bytes, suffix: bytes) {
    |suffix| <= |s| && s[|s| - |suffix|..] == suffix
  }

  /** The position of the first `c` in `s`. */
  function IndexOf(s: bytes, c: byte): (r: Option<nat>)
    ensures r.Some? ==> r.value < |s| && s[r.value] == c && c !in s[..r.value]
    ensures r.None? <==> c !in s
  {
    if s == [] then None
    else if s[0] == c then Some(0)
    else match IndexOf(s[1..], c)
      case None => None
      case Some(i) => Some(i + 1)
  }

  /** A `c` at `k` with none before it is the one `IndexOf` finds. */
  lemma {:induction false} IndexOfFirst(s: bytes, c: byte, k: nat)
    requires k < |s| && s[k] == c
    requires forall j :: 0 <= j < k ==> s[j] != c
    ensures IndexOf(s, c) == Some(k)
  {
    if k > 0 {
      IndexOfFirst(s[1..], c, k - 1);
    }
  }

  // Slice identities, stated once so that callers need not prove them in a
  // large context.

  lemma TakeAll<T>(s: seq<T>)
    ensures s[..|s|] == s
  {
  }

  lemma TakeOneMore<T>(s: seq<T>, n: nat)
    requires n < |s|
    ensures s[..n + 1][..n] == s[..n] && s[..n + 1] == s[..n] + [s[n]]
  {
  }

  lemma AppendAssoc<T>(a: seq<T>, b: seq<T>, c: seq<T>)
    ensures (a + b) + c == a + (b + c)
  {
  }

  /** A concatenation starts with its first part and ends with its second. */
  lemma Affixes(a: bytes, b: bytes)
    ensures StartsWith(a + b, a) && EndsWith(a + b, b)
  {
    assert (a + b)[..|a|] == a;
    assert (a + b)[|a|..] == b;
  }

  lemma PrefixExtend(a: bytes, b: bytes, p: bytes)
    requires StartsWith(a, p)
    ensures StartsWith(a + b, p)
  {
    assert (a + b)[..|p|] == a[..|p|];
  }

  lemma DropOneMore<T>(s: seq<T>, n: nat)
    requires n < |s|
    ensures s[n..][1..] == s[n + 1..] && s[n..] == [s[n]] + s[n + 1..]
  {
  }

  /** The index of the first element that satisfies `P` (`Iterator::position`), or `|xs|` when none does. */
  function FirstWhere<T>(xs: seq<T>, P: T -> bool): (r: nat)
    ensures r <= |xs|
    decreases |xs|
  {
    if xs == [] || P(xs[0]) then 0 else 1 + FirstWhere(xs[1..], P)
  }

  lemma {:induction false} FirstWhereIsFirst<T>(xs: seq<T>, P: T -> bool)
    ensures FirstWhere(xs, P) < |xs| ==> P(xs[FirstWhere(xs, P)])
    ensures forall j :: 0 <= j < FirstWhere(xs, P) ==> !P(xs[j])
    decreases |xs|
  {
    if xs != [] && !P(xs[0]) {
      FirstWhereIsFirst(xs[1..], P);
      forall j | 1 <= j < FirstWhere(xs, P) ensures !P(xs[j]) {
        assert xs[j] == xs[1..][j - 1];
      }
    }
  }

  /** An index before which no element satisfies `P`, and at which one does or the sequence ends, is the first. */
  lemma {:induction false} FirstWhereAt<T>(xs: seq<T>, P: T -> bool, n: nat)
    requires n <= |xs|
    requires forall j :: 0 <= j < n ==> !P(xs[j])
    requires n < |xs| ==> P(xs[n])
    ensures FirstWhere(xs, P) == n
    decreases n
  {
    if n > 0 {
      forall j | 0 <= j < n - 1 ensures !P(xs[1..][j]) {
        assert xs[1..][j] == xs[j + 1];
      }
      FirstWhereAt(xs[1..], P, n - 1);
    }
  }

  /** One step of a search from the front: element `n`, not yet passed by the search, either stops it or is passed. */
  lemma FirstWhereStep<T>(xs: seq<T>, P: T -> bool, n: nat)
    requires n < |xs| && n <= FirstWhere(xs, P)
    ensures P(xs[n]) ==> FirstWhere(xs, P) == n
    ensures !P(xs[n]) ==> n < FirstWhere(xs, P)
  {
    FirstWhereIsFirst(xs, P);
  }

  /** The index of the last element that satisfies `P` (`Iterator::rposition`). */
  function LastWhere<T>(xs: seq<T>, P: T -> bool): (r: Option<nat>)
    ensures r.Some? ==> r.value < |xs|
    decreases |xs|
  {
    if xs == [] then None
    else if P(xs[|xs| - 1]) then Some(|xs| - 1)
    else LastWhere(xs[..|xs| - 1], P)
  }

  lemma {:induction false} LastWhereIsLast<T>(xs: seq<T>, P: T -> bool)
    ensures LastWhere(xs, P).Some? ==> P(xs[LastWhere(xs, P).value])
    ensures LastWhere(xs, P).Some? ==> forall j :: LastWhere(xs, P).value < j < |xs| ==> !P(xs[j])
    ensures LastWhere(xs, P).None? ==> forall j :: 0 <= j < |xs| ==> !P(xs[j])
    decreases |xs|
  {
    if xs != [] && !P(xs[|xs| - 1]) {
      var init := xs[..|xs| - 1];
      LastWhereIsLast(init, P);
      forall j | 0 <= j < |init| ensures init[j] == xs[j] {
      }
    }
  }

  // ---------------------------------------------------------------- trim

  /** The first index at or after `i` that does not hold whitespace, or `|s|`. */
  function SpaceRunEnd(s: bytes, i: nat): (n: nat)
    requires i <= |s|
    ensures i <= n <= |s| && (n < |s| ==> !IsSpace(s[n]))
    ensures forall k :: i <= k < n ==> IsSpace(s[k])
    decreases |s| - i
  {
    if i < |s| && IsSpace(s[i]) then SpaceRunEnd(s, i + 1) else i
  }

  /** One past the last index below `j` that does not hold whitespace, or 0. */
  function SpaceRunStart(s: bytes, j: nat): (n: nat)
    requires j <= |s|
    ensures n <= j && (n > 0 ==> !IsSpace(s[n - 1]))
    ensures forall k :: n <= k < j ==> IsSpace(s[k])
  {
    if j > 0 && IsSpace(s[j - 1]) then SpaceRunStart(s, j - 1) else j
  }

  /** `trim_start` */
  function TrimStart(s: bytes): (r: bytes)
    ensures |r| <= |s| && r == s[|s| - |r|..]
    ensures r == [] || !IsSpace(r[0])
    ensures forall i :: 0 <= i < |s| - |r| ==> IsSpace(s[i])
  {
    s[SpaceRunEnd(s, 0)..]
  }

  /** `trim_end` */
  function TrimEnd(s: bytes): (r: bytes)
    ensures |r| <= |s| && r == s[..|r|]
    ensures r == [] || !IsSpace(r[|r| - 1])
    ensures forall i :: |r| <= i < |s| ==> IsSpace(s[i])
  {
    s[..SpaceRunStart(s, |s|)]
  }

  predicate IsTrimmed(s: bytes) {
    s == [] || (!IsSpace(s[0]) && !IsSpace(s[|s| - 1]))
  }

  /** `trim`: the part of `s` between its leading and its trailing whitespace. */
  function Trim(s: bytes): (r: bytes)
    ensures IsTrimmed(r)
    ensures var a := SpaceRunEnd(s, 0);
      && a + |r| <= |s| && r == s[a..a + |r|]
      && (forall k :: 0 <= k < a ==> IsSpace(s[k]))
      && (forall k :: a + |r| <= k < |s| ==> IsSpace(s[k]))
    ensures forall b :: b in r ==> b in s
  {
    TrimEnd(TrimStart(s))
  }

  // ---------------------------------------------------------- lower case

  predicate IsLowerCase(s: bytes) {
    forall i :: 0 <= i < |s| ==> !IsUpper(s[i])
  }

  /** `to_lowercase` on ASCII: A-Z become a-z, every other byte is kept. */
  function ToLower(s: bytes): (r: bytes)
    ensures |r| == |s| && IsLowerCase(r)
    ensures forall i :: 0 <= i < |s| ==> r[i] == if IsUpper(s[i]) then s[i] + 32 else s[i]
    ensures forall i :: 0 <= i < |s| ==> (IsSpace(r[i]) <==> IsSpace(s[i]))
    ensures IsTrimmed(s) ==> IsTrimmed(r)
    ensures IsLowerCase(s) ==> r == s
  {
    seq(|s|, i requires 0 <= i < |s| => if IsUpper(s[i]) then s[i] + 32 else s[i])
  }

  // ----------------------------------------------------------- splitting

  /** The fragments joined back together with `sep` between neighbours. */
  function Join(parts: seq<bytes>, sep: bytes): bytes
    requires |parts| >= 1
  {
    if |parts| == 1 then parts[0] else parts[0] + sep + Join(parts[1..], sep)
  }

  /** `str::split(c)`: the pieces between the occurrences of `c`. */
  function SplitOn(s: bytes, c: byte): (r: seq<bytes>)
    ensures |r| >= 1
    ensures forall j :: 0 <= j < |r| ==> c !in r[j]
    decreases |s|
  {
    match IndexOf(s, c)
    case None => [s]
    case Some(i) => [s[..i]] + SplitOn(s[i + 1..], c)
  }

  lemma {:induction false} SplitOnJoin(s: bytes, c: byte)
    ensures Join(SplitOn(s, c), [c]) == s
    decreases |s|
  {
    match IndexOf(s, c)
    case None =>
    case Some(i) =>
      var rest := SplitOn(s[i + 1..], c);
      SplitOnJoin(s[i + 1..], c);
      assert SplitOn(s, c) == [s[..i]] + rest;
      assert ([s[..i]] + rest)[1..] == rest;
      calc {
        Join(SplitOn(s, c), [c]);
        s[..i] + [c] + Join(rest, [c]);
        s[..i] + [c] + s[i + 1..];
        s;
      }
  }

  /** When the first `c` of `s` is at `k`, the first piece is `s[..k]` and the second starts right after it. */
  lemma SplitOnAt(s: bytes, c: byte, k: nat)
    requires k < |s| && s[k] == c && c !in s[..k]
    ensures |SplitOn(s, c)| >= 2 && SplitOn(s, c)[0] == s[..k]
    ensures SplitOn(s, c)[1] == SplitOn(s[k + 1..], c)[0]
  {
    forall j | 0 <= j < k ensures s[j] != c {
      assert s[j] == s[..k][j];
    }
    IndexOfFirst(s, c, k);
  }

  /** When `s` starts with `prefix` and the only `c` in `prefix` is its last byte, the second piece is what follows `prefix`, up to the next `c`. */
  lemma AfterPrefix(s: bytes, prefix: bytes, c: byte)
    requires StartsWith(s, prefix) && prefix != []
    requires prefix[|prefix| - 1] == c && c !in prefix[..|prefix| - 1]
    ensures |SplitOn(s, c)| >= 2 && SplitOn(s, c)[1] == SplitOn(s[|prefix|..], c)[0]
  {
    var k := |prefix| - 1;
    assert s[..k] == prefix[..k];
    SplitOnAt(s, c, k);
  }

  /** The first piece is a prefix of the text. */
  lemma SplitOnHead(s: bytes, c: byte)
    ensures StartsWith(s, SplitOn(s, c)[0])
  {
  }

  /** `str::splitn(2, c)`: the text before the first `c` and, if there is one, the text after it. */
  function SplitOnce(s: bytes, c: byte): (r: (bytes, Option<bytes>))
    ensures c !in r.0
    ensures r.1.None? <==> c !in s
    ensures r.1.None? ==> r.0 == s
    ensures r.1.Some? ==> s == r.0 + [c] + r.1.value
  {
    match IndexOf(s, c)
    case None => (s, None)
    case Some(i) => (s[..i], Some(s[i + 1..]))
  }

  /** A text cut at a `c` with none before it is what `SplitOnce` returns. */
  lemma SplitOnceAt(s: bytes, c: byte, before: bytes, after: bytes)
    requires c !in before && s == before + [c] + after
    ensures SplitOnce(s, c) == (before, Some(after))
  {
    forall j | 0 <= j < |before| ensures s[j] != c {
      assert s[j] == before[j];
    }
    IndexOfFirst(s, c, |before|);
    assert s[..|before|] == before && s[|before| + 1..] == after;
  }

  /** Drops one trailing CR. */
  function DropCr(line: bytes): bytes {
    if |line| > 0 && line[|line| - 1] == CR then line[..|line| - 1] else line
  }

  /**
    `str::lines`: split after every LF; a line that ended in LF loses it and
    then one CR before it; a final piece without LF is kept as it is, and an
    empty final piece is not a line.
  */
  function Lines(s: bytes): (r: seq<bytes>)
    ensures r == [] <==> s == []
    ensures forall j :: 0 <= j < |r| ==> LF !in r[j]
    decreases |s|
  {
    if s == [] then []
    else match IndexOf(s, LF)
      case None => [s]
      case Some(i) => [DropCr(s[..i])] + Lines(s[i + 1..])
  }

  /** A line ended by a LF is the first line; the lines after it are those of the rest. */
  lemma LinesCons(a: bytes, b: bytes)
    requires LF !in a
    ensures Lines(a + [LF] + b) == [DropCr(a)] + Lines(b)
  {
    var s := a + [LF] + b;
    IndexOfFirst(s, LF, |a|);
    assert s[..|a|] == a && s[|a| + 1..] == b;
  }

  /** A non-empty text without LF is one line, kept as it is. */
  lemma LinesLast(s: bytes)
    requires LF !in s && s != []
    ensures Lines(s) == [s]
  {
  }

  /** The length of the run of non-whitespace bytes at the front of `t`. */
  function TokenLength(t: bytes): (n: nat)
    ensures n <= |t| && (n < |t| ==> IsSpace(t[n]))
    ensures forall k :: 0 <= k < n ==> !IsSpace(t[k])
  {
    if t == [] || IsSpace(t[0]) then 0 else 1 + TokenLength(t[1..])
  }

  /** A non-empty run of non-whitespace bytes. */
  predicate IsToken(w: bytes) {
    w != [] && forall k :: 0 <= k < |w| ==> !IsSpace(w[k])
  }

  /** The run at the front of a text that starts with a non-whitespace byte is a token. */
  lemma TokenAtFront(t: bytes)
    requires t != [] && !IsSpace(t[0])
    ensures 0 < TokenLength(t) <= |t| && IsToken(t[..TokenLength(t)])
  {
    var n := TokenLength(t);
    assert forall k :: 0 <= k < n ==> t[..n][k] == t[k];
  }

  lemma TokensCons(w: bytes, rest: seq<bytes>)
    requires IsToken(w) && forall j :: 0 <= j < |rest| ==> IsToken(rest[j])
    ensures forall j :: 0 <= j < |[w] + rest| ==> IsToken(([w] + rest)[j])
  {
    forall j | 0 <= j < |[w] + rest| ensures IsToken(([w] + rest)[j]) {
      if j > 0 {
        assert ([w] + rest)[j] == rest[j - 1];
      }
    }
  }

  /** `split_whitespace`: the maximal runs of non-whitespace bytes, in order. */
  function SplitWhitespace(s: bytes): (r: seq<bytes>)
    ensures forall j :: 0 <= j < |r| ==> IsToken(r[j])
    decreases |s|
  {
    var t := TrimStart(s);
    if t == [] then []
    else
      TokenAtFront(t);
      var n := TokenLength(t);
      var rest := SplitWhitespace(t[n..]);
      TokensCons(t[..n], rest);
      [t[..n]] + rest
  }

  /** A run of whitespace from `i` to `n` followed by the end or a non-whitespace byte ends at `n`. */
  lemma {:induction false} SpaceRunEndAt(s: bytes, i: nat, n: nat)
    requires i <= n <= |s| && (n < |s| ==> !IsSpace(s[n]))
    requires forall k :: i <= k < n ==> IsSpace(s[k])
    ensures SpaceRunEnd(s, i) == n
    decreases n - i
  {
    if i < n {
      SpaceRunEndAt(s, i + 1, n);
    }
  }

  /** A token followed by the end or a whitespace byte is the run `TokenLength` measures. */
  lemma {:induction false} TokenLengthOf(w: bytes, rest: bytes)
    requires IsToken(w) && (rest == [] || IsSpace(rest[0]))
    ensures TokenLength(w + rest) == |w|
    decreases |w|
  {
    if |w| > 1 {
      assert (w + rest)[1..] == w[1..] + rest;
      TokenLengthOf(w[1..], rest);
    } else {
      assert (w + rest)[1..] == rest;
    }
  }

  /** Only whitespace gives no words, and whitespace alone gives none. */
  lemma SplitWhitespaceNone(s: bytes)
    ensures SplitWhitespace(s) == [] <==> forall k :: 0 <= k < |s| ==> IsSpace(s[k])
  {
  }

  /**
    Leading whitespace, then a word that runs up to the end or to a
    whitespace byte: the word is the first of the words, and the others are
    the words of the rest. With `SplitWhitespaceNone` this fixes the words of
    every text: its maximal runs of non-whitespace bytes, in order.
  */
  lemma SplitWhitespaceCons(sp: bytes, w: bytes, rest: bytes)
    requires forall k :: 0 <= k < |sp| ==> IsSpace(sp[k])
    requires IsToken(w) && (rest == [] || IsSpace(rest[0]))
    ensures SplitWhitespace(sp + w + rest) == [w] + SplitWhitespace(rest)
  {
    var t := w + rest;
    assert sp + w + rest == sp + t;
    TrimStartAfter(sp, t);
    TokenLengthOf(w, rest);
    assert t[..|w|] == w && t[|w|..] == rest;
  }

  /** Whitespace in front of a text that does not start with whitespace is what `trim_start` removes. */
  lemma TrimStartAfter(sp: bytes, t: bytes)
    requires forall k :: 0 <= k < |sp| ==> IsSpace(sp[k])
    requires t == [] || !IsSpace(t[0])
    ensures TrimStart(sp + t) == t
  {
    var s := sp + t;
    forall k | 0 <= k < |sp| ensures IsSpace(s[k]) {
      assert s[k] == sp[k];
    }
    if t != [] {
      assert s[|sp|] == t[0];
    }
    SpaceRunEndAt(s, 0, |sp|);
    assert s[|sp|..] == t;
  }

  // ---------------------------------------------------------------- UTF-8

  predicate IsContinuation(b: byte) {
    0x80 <= b <= 0xBF
  }

  /**
    The length of the well-formed UTF-8 sequence at the front of `s`, or 0 if
    it does not start with one (Unicode table 3-7: no overlong forms, no
    surrogates, nothing above U+10FFFF).
  */
  function Utf8Width(s: bytes): (w: nat)
    requires s != []
    ensures w <= 4 && w <= |s|
  {
    var b := s[0];
    if b < 0x80 then 1
    else if 0xC2 <= b <= 0xDF then
      if |s| >= 2 && IsContinuation(s[1]) then 2 else 0
    else if 0xE0 <= b <= 0xEF then
      var lo := if b == 0xE0 then 0xA0 else 0x80;
      var hi := if b == 0xED then 0x9F else 0xBF;
      if |s| >= 3 && lo <= s[1] <= hi && IsContinuation(s[2]) then 3 else 0
    else if 0xF0 <= b <= 0xF4 then
      var lo := if b == 0xF0 then 0x90 else 0x80;
      var hi := if b == 0xF4 then 0x8F else 0xBF;
      if |s| >= 4 && lo <= s[1] <= hi && IsContinuation(s[2]) && IsContinuation(s[3]) then 4 else 0
    else 0
  }

  /** `String::from_utf8` succeeds exactly on these byte strings. */
  predicate Utf8Valid(s: bytes)
    decreases |s|
  {
    s == [] || (Utf8Width(s) > 0 && Utf8Valid(s[Utf8Width(s)..]))
  }

  /** `str::is_char_boundary` */
  predicate IsCharBoundary(s: bytes, k: nat) {
    k == 0 || k == |s| || (k < |s| && !IsContinuation(s[k]))
  }

  // ------------------------------------------------------- decimal numbers

  predicate AllDigits(s: bytes) {
    forall i :: 0 <= i < |s| ==> IsDigit(s[i])
  }

  /** `format!("{}", n)` for an unsigned integer. */
  function Decimal(n: nat): (r: bytes)
    ensures r != [] && AllDigits(r)
  {
    if n < 10 then [48 + n] else Decimal(n / 10) + [48 + n % 10]
  }

  /** The value of a string of decimal digits. */
  function DecimalValue(s: bytes): nat
    requires AllDigits(s)
  {
    if s == [] then 0 else DecimalValue(s[..|s| - 1]) * 10 + (s[|s| - 1] - 48)
  }

  /** The digits of a three-digit number. */
  lemma ThreeDigits(n: nat)
    requires 100 <= n < 1000
    ensures Decimal(n) == [48 + n / 100, 48 + n / 10 % 10, 48 + n % 10]
  {
    assert Decimal(n / 10) == Decimal(n / 100) + [48 + n / 10 % 10];
  }

  lemma {:induction false} DecimalRoundTrip(n: nat)
    ensures DecimalValue(Decimal(n)) == n
  {
    if n >= 10 {
      DecimalRoundTrip(n / 10);
      var d := Decimal(n / 10) + [48 + n % 10];
      assert d[..|d| - 1] == Decimal(n / 10);
    }
  }
}
