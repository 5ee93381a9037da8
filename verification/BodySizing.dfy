/** Fitting a message body into Matrix events: word-preserving truncation, the size
    step and the chunk loop (pkg/email/processor.go). */
module BodySizing {
  import opened Utf8

  const MAX_CONTENT: nat := 48 * 1024     // MaxMatrixContentSize
  const TARGET: nat := 16 * 1024          // PerEventTarget
  const MAX_CHUNKS: nat := 50
  const WORD_WINDOW: nat := 512
  const MIN_PROGRESS: nat := 7370         // proved, not in the source

  // ---------- truncation ----------

  function LastSpace(s: bytes): (i: int)
    ensures -1 <= i < |s|
    ensures i >= 0 ==> s[i] == 0x20
    ensures forall j :: i < j < |s| ==> s[j] != 0x20
  {
    if s == [] then -1
    else if s[|s| - 1] == 0x20 then |s| - 1
    else LastSpace(s[..|s| - 1])
  }

  /** Where a string longer than `max` is cut: the last rune boundary (or `max` itself when
      the string has no well-formed front), moved back to a space less than 512 bytes away. */
  function Cut(s: bytes, max: nat): (c: nat)
    requires |s| > max
    ensures c <= max && (max > 0 ==> c > 0)
  {
    var base := if Floor(s, max) == 0 then max else Floor(s, max);
    var ls := LastSpace(s[..base]);
    if ls > 0 && base - ls < WORD_WINDOW then ls else base
  }

  function Truncated(s: bytes, max: nat): (r: bytes)
    ensures r <= s && |r| <= max
    ensures |s| <= max ==> r == s
    ensures s != [] && max > 0 ==> r != []
  {
    if |s| <= max then s else s[..Cut(s, max)]
  }

  method TruncateUTF8PreserveWords(s: bytes, maxBytes: nat) returns (r: bytes, truncated: bool)
    ensures truncated <==> |s| > maxBytes
    ensures r == Truncated(s, maxBytes)
    ensures truncated ==> exists v :: LastFront(s, maxBytes, v) && KeepsWords(s, v, |r|)
  {
    hide LastFront, KeepsWords;
    if |s| <= maxBytes { return s, false; }
    FloorIsLastFront(s, maxBytes);
    TruncationKeepsWords(s, maxBytes, if Floor(s, maxBytes) == 0 then maxBytes else Floor(s, maxBytes));
    var cut := maxBytes;
    while cut > 0 && !Valid(s[..cut])
      invariant 0 <= cut <= maxBytes
      invariant forall j :: cut < j <= maxBytes ==> !Valid(s[..j])
    {
      cut := cut - 1;
    }
    BackedOffToFloor(s, maxBytes, cut);
    if cut <= 0 { cut := maxBytes; }
    var lastSpace := LastIndexByte(s[..cut], 0x20);
    if lastSpace > 0 && cut - lastSpace < WORD_WINDOW { cut := lastSpace; }
    return s[..cut], true;
  }

  method LastIndexByte(s: bytes, b: byte) returns (i: int)
    ensures -1 <= i < |s|
    ensures i >= 0 ==> s[i] == b
    ensures forall j :: i < j < |s| ==> s[j] != b
  {
    i := |s| - 1;
    while i >= 0 && s[i] != b
      invariant -1 <= i < |s|
      invariant forall j :: i < j < |s| ==> s[j] != b
    {
      i := i - 1;
    }
  }

  lemma BackedOffToFloor(s: bytes, k: nat, cut: nat)
    requires cut <= k < |s|
    requires cut == 0 || Valid(s[..cut])
    requires forall j :: cut < j <= k ==> !Valid(s[..j])
    ensures cut == Floor(s, k)
  {
    FloorIsLast(s, k, cut);
    ValidPrefixIsBoundary(s, cut);
    ValidPrefixIsBoundary(s, Floor(s, k));
  }

  /** The last place at or below `max` where a well-formed front ends; `max` when there is none. */
  ghost predicate LastFront(s: bytes, max: nat, v: nat)
    requires max <= |s|
  {
    if exists j :: 0 < j <= max && Valid(s[..j]) then
      0 < v <= max && Valid(s[..v]) && forall j :: v < j <= max ==> !Valid(s[..j])
    else v == max
  }

  /** A cut at `c` keeps words: it is at the last space before `v` when one stands less than 512
      bytes before it and not at the very front, and at `v` when none does. */
  ghost predicate KeepsWords(s: bytes, v: nat, c: nat)
    requires v <= |s|
  {
    if exists p :: 0 < p < v && v - p < 512 && s[p] == 0x20 then
      0 < c < v && v - c < 512 && s[c] == 0x20 && forall j :: c < j < v ==> s[j] != 0x20
    else c == v
  }

  lemma FloorIsLastFront(s: bytes, max: nat)
    requires max < |s|
    ensures LastFront(s, max, if Floor(s, max) == 0 then max else Floor(s, max))
  {
    var v := Floor(s, max);
    hide RuneLen, Floor, Boundary, Valid;
    forall j | v < j <= max ensures !Valid(s[..j]) {
      ValidPrefixIsBoundary(s, j);
      FloorIsLast(s, max, j);
    }
    ValidPrefixIsBoundary(s, v);
    FloorIsLast(s, max, v);
  }

  /** Where a text that is too long is cut, in terms of the text alone. */
  lemma TruncationKeepsWords(s: bytes, max: nat, v: nat)
    requires |s| > max && LastFront(s, max, v)
    ensures Truncated(s, max) <= s && KeepsWords(s, v, |Truncated(s, max)|)
  {
    hide Floor, Valid;
    FloorIsLastFront(s, max);
    var ls := LastSpace(s[..v]);
    assert ls >= 0 ==> s[..v][ls] == s[ls];
    assert forall j :: ls < j < v ==> s[..v][j] == s[j];
  }

  /** What truncation promises: at most 514 bytes are lost below the limit, and a well-formed
      string stays well-formed exactly when its first rune fits the limit. */
  lemma TruncationIsSafe(s: bytes, max: nat)
    requires Valid(s) && |s| > max
    ensures Valid(Truncated(s, max)) <==> max == 0 || RuneLen(s) <= max
    ensures max >= 4 ==> Valid(Truncated(s, max)) && |Truncated(s, max)| + 514 >= max
  {
    var v := Floor(s, max);
    FloorIsLast(s, max, 0);
    FloorIsNear(s, max);
    if v == 0 && max > 0 {
      ValidPrefixIsBoundary(s, max);
      assert forall j :: 0 <= j < max ==> s[..max][j] != 0x20;
      assert Cut(s, max) == max;
    } else if max > 0 {
      var c := Cut(s, max);
      if c < v { AsciiIsBoundary(s, v, c); }
      ValidPrefixIsBoundary(s, c);
    }
  }

  // ---------- JSON size of an event ----------

  /** Bytes encoding/json spends on one well-formed rune (RFC 8259 section 7, with the
      HTML-safe escapes and the two line separators escaped). */
  function EscapedRune(r: bytes): (n: nat)
    requires 1 <= |r| <= 4
    ensures |r| <= n <= 6 * |r|
  {
    if |r| == 1 then
      if r[0] == 0x22 || r[0] == 0x5C || 0x08 <= r[0] <= 0x0A || r[0] == 0x0C || r[0] == 0x0D then 2
      else if r[0] < 0x20 || r[0] == 0x3C || r[0] == 0x3E || r[0] == 0x26 then 6
      else 1
    else if r == [0xE2, 0x80, 0xA8] || r == [0xE2, 0x80, 0xA9] then 6
    else |r|
  }

  /** A stray byte is written as the six characters of an escaped U+FFFD. */
  function JsonLen(s: bytes): (n: nat)
    ensures |s| <= n <= 6 * |s|
    decreases |s|
  {
    if s == [] then 0
    else if RuneLen(s) == 0 then 6 + JsonLen(s[1..])
    else EscapedRune(s[..RuneLen(s)]) + JsonLen(s[RuneLen(s)..])
  }

  /** What one byte costs beyond itself: escapes of two and of six characters, and the two line
      separators, three bytes long, of which the first pays. */
  function Extra(s: bytes): nat
    requires s != []
  {
    if s[0] in [0x22, 0x5C, 0x08, 0x09, 0x0A, 0x0C, 0x0D] then 1
    else if s[0] < 0x20 || s[0] in [0x26, 0x3C, 0x3E] then 5
    else if |s| >= 3 && s[0] == 0xE2 && s[1] == 0x80 && s[2] in [0xA8, 0xA9] then 3
    else 0
  }

  function Extras(s: bytes): nat { if s == [] then 0 else Extra(s) + Extras(s[1..]) }

  lemma {:induction false} ContsCostNothing(s: bytes, n: nat)
    requires n <= |s| && forall i :: 0 <= i < n ==> Cont(s[i])
    ensures Extras(s) == Extras(s[n..])
    decreases n
  {
    if n > 0 {
      ContsCostNothing(s[1..], n - 1);
      assert s[1..][n - 1..] == s[n..];
    }
  }

  lemma RuneCost(s: bytes)
    requires RuneLen(s) > 0
    ensures EscapedRune(s[..RuneLen(s)]) == RuneLen(s) + Extra(s)
  {
    var r := s[..RuneLen(s)];
    if |r| == 3 {
      assert r == [s[0], s[1], s[2]];
    }
  }

  /** The size of well-formed text, byte by byte, without looking at runes. */
  lemma {:induction false} JsonLenIs(s: bytes)
    requires Valid(s)
    ensures JsonLen(s) == |s| + Extras(s)
    decreases |s|
  {
    if s != [] {
      var n := RuneLen(s);
      JsonLenIs(s[n..]);
      RuneCost(s);
      ContsCostNothing(s[1..], n - 1);
      assert s[1..][n - 1..] == s[n..];
      hide EscapedRune, Extra;
    }
  }

  const FRAME: nat := 30   // {"msgtype":"m.text","body":""}

  /** withinMatrixLimit for a text event; `extra` is what other fields add. */
  predicate Within(body: bytes, extra: nat) {
    FRAME + extra + JsonLen(body) <= MAX_CONTENT
  }

  // ---------- the shrink loop ----------

  function ShrinkLen(len: nat): (r: nat)
    requires len > 0
    ensures r < len
  {
    var reduceBy := if len / 10 < 256 then 256 else len / 10;
    if len - reduceBy <= 0 then len - 1 else len - reduceBy
  }

  function Shrunk(c: bytes): (r: bytes)
    ensures r <= c
    decreases |c|
  {
    if Within(c, 0) || c == [] then c
    else
      var r := Shrunk(c[..ShrinkLen(|c|)]);
      assert c[..ShrinkLen(|c|)] <= c;
      r
  }

  method ShrinkToLimit(chunk0: bytes) returns (chunk: bytes)
    ensures chunk == Shrunk(chunk0)
  {
    chunk := chunk0;
    while !Within(chunk, 0) && |chunk| > 0
      invariant Shrunk(chunk) == Shrunk(chunk0)
      decreases |chunk|
    {
      var reduceBy := |chunk| / 10;
      if reduceBy < 256 { reduceBy := 256; }
      var newLen := |chunk| - reduceBy;
      if newLen <= 0 { newLen := |chunk| - 1; }
      chunk := chunk[..newLen];
    }
  }

  lemma {:induction false} ShrinkKeepsEnough(c: bytes)
    ensures Within(Shrunk(c), 0)
    ensures Shrunk(c) == c || |Shrunk(c)| >= MIN_PROGRESS
    decreases |c|
  {
    if !Within(c, 0) {
      ShrinkKeepsEnough(c[..ShrinkLen(|c|)]);
    }
  }

  /** A chunk that fits is left alone; otherwise the loop stops at the first prefix that fits:
      one step before, not more than a tenth or 256 bytes longer, it did not. */
  lemma {:induction false} ShrinkIsGentle(c: bytes)
    ensures Within(c, 0) <==> Shrunk(c) == c
    ensures !Within(c, 0) ==> exists m ::
      && |Shrunk(c)| < m <= |c| && !Within(c[..m], 0)
      && (m - |Shrunk(c)| <= 256 || 10 * (m - |Shrunk(c)|) <= m)
    decreases |c|
  {
    if !Within(c, 0) {
      hide Within;
      var d := c[..ShrinkLen(|c|)];
      ShrinkIsGentle(d);
      assert c[..|c|] == c;
      if !Within(d, 0) {
        var m :| |Shrunk(d)| < m <= |d| && !Within(d[..m], 0)
          && (m - |Shrunk(d)| <= 256 || 10 * (m - |Shrunk(d)|) <= m);
        assert c[..m] == d[..m];
      }
    }
  }

  // ---------- the chunk loop ----------

  predicate TrimByte(b: byte) { b == 0x20 || b == 0x0A || b == 0x09 || b == 0x0D }

  function TrimLeft(s: bytes): (r: bytes)
    ensures |r| <= |s| && r == s[|s| - |r|..]
    ensures forall j :: 0 <= j < |s| - |r| ==> TrimByte(s[j])
    ensures r == [] || !TrimByte(r[0])
  {
    if s == [] || !TrimByte(s[0]) then s else TrimLeft(s[1..])
  }

  function FirstChunk(rem: bytes): (c: bytes)
    ensures c <= rem && |c| <= TARGET
  {
    Shrunk(Truncated(rem, TARGET))
  }

  function AfterChunk(rem: bytes): (r: bytes)
    ensures |r| + |FirstChunk(rem)| <= |rem| && r == rem[|rem| - |r|..]
    ensures forall j :: |FirstChunk(rem)| <= j < |rem| - |r| ==> TrimByte(rem[j])
    ensures r != [] ==> r[0] != 0x20 && r[0] != 0x0A && r[0] != 0x09 && r[0] != 0x0D
  {
    TrimLeft(rem[|FirstChunk(rem)|..])
  }

  /** Up to `n` chunks of `rem`, and what is left after them. */
  function Chunked(rem: bytes, n: nat): (r: (seq<bytes>, bytes))
    ensures |r.0| <= n
  {
    if rem == [] || n == 0 then ([], rem)
    else
      var (cs, rest) := Chunked(AfterChunk(rem), n - 1);
      ([FirstChunk(rem)] + cs, rest)
  }

  lemma ChunkedStep(rem: bytes, n: nat)
    requires rem != [] && n > 0
    ensures Chunked(rem, n) ==
            ([FirstChunk(rem)] + Chunked(AfterChunk(rem), n - 1).0, Chunked(AfterChunk(rem), n - 1).1)
  {
    hide FirstChunk, AfterChunk;
  }

  lemma ChunkedStops(rem: bytes, n: nat)
    requires rem == [] || n == 0
    ensures Chunked(rem, n) == ([], rem)
  {
  }

  datatype Notice = NoNotice | Omitted(characters: nat)

  /** One turn of the chunk loop: cut a chunk, shrink it, advance past it and trim. */
  method TakeChunk(rem: bytes) returns (chunk: bytes, remaining: bytes)
    requires rem != []
    ensures chunk == FirstChunk(rem) && remaining == AfterChunk(rem)
  {
    hide Truncated, Shrunk, TrimLeft, Within, Cut;
    var did;
    chunk, did := TruncateUTF8PreserveWords(rem, TARGET);
    // the raw-slice fallback for an empty chunk cannot be reached: a cut is never at zero
    chunk := ShrinkToLimit(chunk);
    if |chunk| >= |rem| {
      remaining := [];
    } else {
      remaining := rem[|chunk|..];
      remaining := TrimLeft(remaining);
    }
  }

  method ChunkBody(body: bytes) returns (parts: seq<bytes>, remaining: bytes, notice: Notice)
    ensures (parts, remaining) == Chunked(body, MAX_CHUNKS)
    ensures notice == if remaining == [] then NoNotice else Omitted(|remaining|)
  {
    hide Chunked, FirstChunk, AfterChunk;
    remaining := body;
    parts := [];
    var chunkIndex := 1;
    ghost var todo := Chunked(body, MAX_CHUNKS);
    assert parts + todo.0 == todo.0;
    while |remaining| > 0 && chunkIndex <= MAX_CHUNKS
      invariant 1 <= chunkIndex <= MAX_CHUNKS + 1
      invariant todo == Chunked(remaining, MAX_CHUNKS + 1 - chunkIndex)
      invariant Chunked(body, MAX_CHUNKS) == (parts + todo.0, todo.1)
    {
      ChunkedStep(remaining, MAX_CHUNKS + 1 - chunkIndex);
      ghost var done := parts;
      var chunk;
      chunk, remaining := TakeChunk(remaining);
      parts := parts + [chunk];
      chunkIndex := chunkIndex + 1;
      todo := Chunked(remaining, MAX_CHUNKS + 1 - chunkIndex);
      assert parts + todo.0 == done + ([chunk] + todo.0);
    }
    ChunkedStops(remaining, MAX_CHUNKS + 1 - chunkIndex);
    assert parts + [] == parts;
    notice := if |remaining| > 0 && chunkIndex > MAX_CHUNKS then Omitted(|remaining|) else NoNotice;
  }

  ghost predicate AllTrim(s: bytes) {
    forall b :: b in s ==> b == 0x20 || b == 0x0A || b == 0x09 || b == 0x0D
  }

  /** `body` is chunk, white space, chunk, white space, ..., rest, in that order. */
  ghost predicate Weaves(body: bytes, chunks: seq<bytes>, rest: bytes) {
    if chunks == [] then body == rest
    else exists gap: bytes ::
      && AllTrim(gap)
      && chunks[0] + gap <= body
      && Weaves(body[|chunks[0] + gap|..], chunks[1..], rest)
  }

  /** The first chunk is all of a text that fits; a longer text is cut at a word, and then shrunk
      only if the piece is too large as JSON. */
  lemma ChunkKeepsWords(rem: bytes, v: nat)
    requires |rem| > TARGET ==> LastFront(rem, TARGET, v)
    ensures |rem| <= TARGET && Within(rem, 0) ==> FirstChunk(rem) == rem
    ensures |rem| > TARGET ==> exists c: nat ::
      && c <= TARGET && KeepsWords(rem, v, c) && FirstChunk(rem) <= rem[..c]
      && (Within(rem[..c], 0) ==> FirstChunk(rem) == rem[..c])
  {
    hide Shrunk, Within, KeepsWords, LastFront, Cut;
    ShrinkIsGentle(Truncated(rem, TARGET));
    if |rem| > TARGET {
      TruncationKeepsWords(rem, TARGET, v);
      var c := |Truncated(rem, TARGET)|;
      assert rem[..c] == Truncated(rem, TARGET);
    }
  }

  lemma FirstChunkFits(rem: bytes)
    requires rem != []
    ensures FirstChunk(rem) != [] && Within(FirstChunk(rem), 0)
  {
    ShrinkKeepsEnough(Truncated(rem, TARGET));
  }

  /** The bytes dropped after the first chunk are white space. */
  lemma GapAfterChunk(rem: bytes) returns (gap: bytes)
    ensures AllTrim(gap) && FirstChunk(rem) + gap + AfterChunk(rem) == rem
  {
    hide FirstChunk, AfterChunk;
    gap := rem[|FirstChunk(rem)|..|rem| - |AfterChunk(rem)|];
  }

  lemma WeaveNone(body: bytes)
    ensures Weaves(body, [], body)
  {
  }

  lemma WeaveOne(c: bytes, gap: bytes, next: bytes, cs: seq<bytes>, rest: bytes)
    requires AllTrim(gap) && Weaves(next, cs, rest)
    ensures Weaves(c + gap + next, [c] + cs, rest)
  {
    assert ([c] + cs)[1..] == cs;
    assert (c + gap + next)[|c + gap|..] == next;
  }

  /** Chunking loses and reorders nothing but white space between chunks, for any body and
      any chunk count, and every chunk fits an event. */
  lemma {:induction false} ChunkingConserves(body: bytes, n: nat)
    ensures var (cs, rest) := Chunked(body, n);
      && Weaves(body, cs, rest)
      && (forall c :: c in cs ==> 0 < |c| <= TARGET && Within(c, 0))
      && (rest != [] ==> |cs| == n)
    decreases n
  {
    hide FirstChunk, AfterChunk, Within, Chunked, Weaves, AllTrim;
    if body == [] || n == 0 {
      ChunkedStops(body, n);
      WeaveNone(body);
    } else {
      ChunkedStep(body, n);
      FirstChunkFits(body);
      ChunkingConserves(AfterChunk(body), n - 1);
      var gap := GapAfterChunk(body);
      var (cs, rest) := Chunked(AfterChunk(body), n - 1);
      WeaveOne(FirstChunk(body), gap, AfterChunk(body), cs, rest);
    }
  }

  // ---------- why fifty chunks always suffice ----------

  /** How many small steps can still come before the next large chunk: an ill-formed byte
      ends the well-formed front early, after which the raw cut takes over. */
  function Detours(rem: bytes): (d: nat)
    ensures d <= 2
  {
    var v := Floor(rem, TARGET);
    if |rem| <= TARGET || v == 0 || v + 3 >= TARGET then 0
    else if LastSpace(rem[..v]) > 0 && v - LastSpace(rem[..v]) < WORD_WINDOW then 2
    else 1
  }

  function Budget(rem: bytes): nat {
    if rem == [] then 0 else 3 * (|rem| / MIN_PROGRESS) + Detours(rem) + 1
  }

  lemma {:induction false} FloorStuck(s: bytes, v: nat, k: nat)
    requires v <= |s| && v <= k
    requires Boundary(s, v) && RuneLen(s[v..]) == 0
    ensures Floor(s, k) == v
    decreases v
  {
    if v > 0 {
      var n := RuneLen(s);
      assert s[n..][v - n..] == s[v..];
      FloorStuck(s[n..], v - n, k - n);
    }
  }

  lemma {:induction false} BoundaryInside(s: bytes, a: nat, b: nat)
    requires Boundary(s, a) && Boundary(s, b) && a <= b <= |s|
    ensures Boundary(s[a..], b - a)
    decreases a
  {
    hide RuneLen;
    if a == 0 {
      assert s[a..] == s;
    } else {
      var n := RuneLen(s);
      assert s[n..][a - n..] == s[a..];
      BoundaryInside(s[n..], a - n, b - n);
    }
  }

  /** Past the trimmed gap, the well-formed front still ends at the same stray byte. */
  lemma FrontAfterGap(rem: bytes, v: nat, c: nat, b: nat, k: nat)
    requires c <= b <= v < |rem| && v <= k
    requires Boundary(rem, v) && RuneLen(rem[v..]) == 0
    requires c == v || rem[c] < 0x80
    requires forall j :: c <= j < b ==> TrimByte(rem[j])
    ensures Floor(rem[b..], k) == v - b
  {
    hide Floor, RuneLen, Boundary, TrimByte;
    ReachesTrim(rem, v, c, b);
    BoundaryInside(rem, b, v);
    DropTwice(rem, b, v);
    FloorStuck(rem[b..], v - b, k);
  }

  lemma DropTwice(s: bytes, a: nat, b: nat)
    requires a <= b <= |s|
    ensures s[a..][b - a..] == s[b..]
  {
  }

  /** A chunk cut at an early ill-formed byte is followed by fewer detours. */
  lemma DetoursDrop(rem: bytes)
    requires Detours(rem) > 0
    ensures Detours(TrimLeft(rem[Cut(rem, TARGET)..])) < Detours(rem)
  {
    hide Floor, RuneLen, LastSpace, TrimLeft, Boundary, Valid, TrimByte, Cont;
    var v, c := Floor(rem, TARGET), Cut(rem, TARGET);
    FloorIsLast(rem, TARGET, 0);
    FloorIsNear(rem, TARGET);
    StrayByteIsNotTrimmed(rem[v..]);
    assert rem[v..][0] == rem[v];
    assert c < v ==> rem[c] == 0x20;
    var b := TrimmedAt(rem, c, v);
    FrontAfterGap(rem, v, c, b, TARGET);
    NoSpaceLeft(rem, v, b);
  }

  /** Where the text after a cut at `c` resumes, when the byte at `v` is not trimmed. */
  lemma TrimmedAt(rem: bytes, c: nat, v: nat) returns (b: nat)
    requires c <= v < |rem| && !TrimByte(rem[v])
    ensures c <= b <= v && TrimLeft(rem[c..]) == rem[b..]
    ensures forall j :: c <= j < b ==> TrimByte(rem[j])
    ensures c < v && rem[c] == 0x20 ==> b > c
  {
    hide TrimLeft;
    var next := TrimLeft(rem[c..]);
    b := |rem| - |next|;
    assert next == rem[b..];
    forall j | c <= j < b ensures TrimByte(rem[j]) { assert rem[c..][j - c] == rem[j]; }
    assert b < |rem| ==> next[0] == rem[b];
  }

  lemma NoSpaceLeft(rem: bytes, v: nat, b: nat)
    requires b <= v <= |rem|
    ensures LastSpace(rem[..v]) < b ==> LastSpace(rem[b..][..v - b]) == -1
  {
    hide LastSpace;
    var ls := LastSpace(rem[b..][..v - b]);
    assert ls >= 0 ==> rem[b..][..v - b][ls] == rem[..v][ls + b];
  }

  lemma StrayByteIsNotTrimmed(s: bytes)
    requires s != [] && RuneLen(s) == 0
    ensures s[0] >= 0x80 && !TrimByte(s[0])
  {
  }

  lemma {:induction false} ReachesTrim(s: bytes, v: nat, c: nat, b: nat)
    requires Boundary(s, v) && c <= b <= v <= |s|
    requires c == v || (c < v && s[c] < 0x80)
    requires forall j :: c <= j < b ==> TrimByte(s[j])
    ensures Boundary(s, b)
    decreases b - c
  {
    if b < v && s[b] < 0x80 {
      AsciiIsBoundary(s, v, b);
    } else if b < v {
      assert b > c;
      ReachesTrim(s, v, c, b - 1);
      StepsOver(s, b - 1, v);
    }
  }

  lemma {:induction false} StepsOver(s: bytes, i: nat, v: nat)
    requires Boundary(s, i) && i < v && v <= |s| && s[i] < 0x80
    ensures Boundary(s, i + 1)
    decreases i
  {
    if i > 0 {
      var n := RuneLen(s);
      StepsOver(s[n..], i - n, v - n);
    }
  }

  /** A chunk below the proved minimum was not shrunk. */
  lemma SmallChunk(rem: bytes)
    requires rem != [] && |FirstChunk(rem)| < MIN_PROGRESS
    ensures |rem| <= TARGET ==> AfterChunk(rem) == []
    ensures |rem| > TARGET ==> Cut(rem, TARGET) < MIN_PROGRESS && AfterChunk(rem) == TrimLeft(rem[Cut(rem, TARGET)..])
  {
    hide Shrunk, Cut, TrimLeft, Within;
    ShrinkKeepsEnough(Truncated(rem, TARGET));
  }

  lemma BudgetDrops(rem: bytes)
    requires rem != []
    ensures Budget(AfterChunk(rem)) < Budget(rem)
  {
    hide FirstChunk, AfterChunk, Cut, TrimLeft, Detours;
    if |FirstChunk(rem)| >= MIN_PROGRESS {
      DivStep(|rem|, |AfterChunk(rem)|);
    } else {
      SmallChunk(rem);
      if |rem| > TARGET {
        CutIsFarWithoutDetours(rem);
        DetoursDrop(rem);
        assert |AfterChunk(rem)| / MIN_PROGRESS <= |rem| / MIN_PROGRESS;
      }
    }
  }

  lemma CutIsFarWithoutDetours(rem: bytes)
    requires |rem| > TARGET
    ensures Detours(rem) == 0 ==> Cut(rem, TARGET) + 514 >= TARGET
  {
    hide Floor, LastSpace;
  }

  lemma DivStep(a: nat, b: nat)
    requires b + MIN_PROGRESS <= a
    ensures b / MIN_PROGRESS + 1 <= a / MIN_PROGRESS
  {
  }

  lemma {:induction false} WithinBudget(body: bytes, n: nat)
    requires n >= Budget(body)
    ensures Chunked(body, n).1 == [] && |Chunked(body, n).0| <= Budget(body)
    decreases n
  {
    if body != [] && n > 0 {
      BudgetDrops(body);
      WithinBudget(AfterChunk(body), n - 1);
    }
  }

  // ---------- the size step and the whole path ----------

  // The notice after a cut body: "[Message truncated", an em dash, "full text attached]".
  const NOTICE_HEAD: bytes :=
    [0x0A, 0x0A, 0x5B, 0x4D, 0x65, 0x73, 0x73, 0x61, 0x67, 0x65, 0x20,
     0x74, 0x72, 0x75, 0x6E, 0x63, 0x61, 0x74, 0x65, 0x64, 0x20]
  const EM_DASH: bytes := [0xE2, 0x80, 0x94]
  const NOTICE_TAIL: bytes :=
    [0x20, 0x66, 0x75, 0x6C, 0x6C, 0x20, 0x74, 0x65, 0x78, 0x74, 0x20,
     0x61, 0x74, 0x74, 0x61, 0x63, 0x68, 0x65, 0x64, 0x5D]
  const TRUNCATED_ATTACHED: bytes := NOTICE_HEAD + EM_DASH + NOTICE_TAIL

  lemma {:induction false} AsciiIsValid(s: bytes)
    requires forall i :: 0 <= i < |s| ==> s[i] < 0x80
    ensures Valid(s)
  {
    if s != [] { AsciiIsValid(s[1..]); }
  }

  lemma ValidConcat3(a: bytes, b: bytes, c: bytes)
    requires Valid(a) && Valid(b) && Valid(c)
    ensures Valid(a + b + c)
  {
    hide Valid;
    ValidConcat(a, b);
    ValidConcat(a + b, c);
  }

  lemma NoticeIsValid()
    ensures Valid(TRUNCATED_ATTACHED) && |TRUNCATED_ATTACHED| == 44
  {
    hide Valid;
    RuneIsValid(EM_DASH);
    hide RuneLen;
    AsciiIsValid(NOTICE_HEAD);
    AsciiIsValid(NOTICE_TAIL);
    ValidConcat3(NOTICE_HEAD, EM_DASH, NOTICE_TAIL);
  }

  lemma RuneIsValid(r: bytes)
    requires RuneLen(r) == |r|
    ensures Valid(r)
  {
  }

  /** The body after the size step: the text itself, or a truncated front and the notice. */
  function Bounded(fullText: bytes, extra: nat): bytes {
    var t := Truncated(fullText, MAX_CONTENT - 2048);
    if Within(fullText, extra) || t == fullText then fullText else t + TRUNCATED_ATTACHED
  }

  /** A text that fits, or is not long, stays; any other one is cut at a word and gets the
      notice. */
  lemma BoundedMeans(fullText: bytes, extra: nat, v: nat)
    requires |fullText| > MAX_CONTENT - 2048 ==> LastFront(fullText, MAX_CONTENT - 2048, v)
    ensures Within(fullText, extra) || |fullText| <= MAX_CONTENT - 2048 ==> Bounded(fullText, extra) == fullText
    ensures !Within(fullText, extra) && |fullText| > MAX_CONTENT - 2048 ==> exists c: nat ::
      c <= v && KeepsWords(fullText, v, c) && Bounded(fullText, extra) == fullText[..c] + TRUNCATED_ATTACHED
  {
    hide Within, LastFront, Cut;
    if |fullText| > MAX_CONTENT - 2048 {
      TruncationKeepsWords(fullText, MAX_CONTENT - 2048, v);
      var t := Truncated(fullText, MAX_CONTENT - 2048);
      assert t == fullText[..|t|];
    }
  }

  /** Step 2 of ConvertMessage: `extra` is the JSON size of the fields other than the body. */
  method BoundBody(fullText: bytes, extra: nat) returns (body: bytes)
    ensures body == Bounded(fullText, extra) && |body| <= MAX_CONTENT
    ensures Valid(fullText) ==> Valid(body)
  {
    body := fullText;
    if !Within(body, extra) {
      var maxBody := MAX_CONTENT - 2048;
      if maxBody < 1024 { maxBody := 1024; }
      NoticeIsValid();
      var trunc, did := TruncateUTF8PreserveWords(fullText, maxBody);
      if did {
        body := trunc + TRUNCATED_ATTACHED;
        if Valid(fullText) {
          TruncationIsSafe(fullText, maxBody);
          ValidConcat(trunc, TRUNCATED_ATTACHED);
        }
      }
    }
  }

  /** The fifty-chunk cap is dead code: after the size step, no body at all, well-formed
      or not, needs more than 21 chunks, so no text is ever omitted. */
  lemma CapNeverReached(body: bytes)
    requires |body| <= MAX_CONTENT
    ensures |Chunked(body, MAX_CHUNKS).0| <= 21
    ensures Chunked(body, MAX_CHUNKS).1 == []
  {
    assert |body| / MIN_PROGRESS <= 6;
    WithinBudget(body, MAX_CHUNKS);
  }

  /** Wherever a well-formed body has been cut so far, the next chunk makes full progress
      unless it finishes the body. */
  lemma WellFormedStep(body: bytes, p: nat)
    requires Valid(body) && p < |body|
    ensures AfterChunk(body[p..]) == [] || |FirstChunk(body[p..])| >= MIN_PROGRESS
  {
    hide Shrunk, RuneLen, Within, Boundary;
    var rem := body[p..];
    SuffixOfValid(body, p);
    ShrinkKeepsEnough(Truncated(rem, TARGET));
    if |rem| > TARGET {
      if Valid(rem) {
        TruncationIsSafe(rem, TARGET);
      } else {
        StrayFrontHasNoFloor(rem, TARGET);
      }
    }
  }

  lemma StrayFrontHasNoFloor(s: bytes, k: nat)
    requires s != [] && Cont(s[0])
    ensures Floor(s, k) == 0
  {
  }

  /** For well-formed text every chunk but the last makes the full progress. */
  lemma {:induction false} WellFormedNeedsFewer(body: bytes, p: nat, n: nat)
    requires Valid(body) && p <= |body|
    requires n > (|body| - p) / MIN_PROGRESS
    ensures var (cs, rest) := Chunked(body[p..], n);
      && rest == []
      && |cs| <= (|body| - p) / MIN_PROGRESS + 1
    decreases n
  {
    hide FirstChunk, AfterChunk, Valid;
    var rem := body[p..];
    if rem != [] {
      WellFormedStep(body, p);
      var next := AfterChunk(rem);
      var q := |body| - |next|;
      assert next == body[q..];
      if next != [] {
        assert |body| - q <= |body| - p - MIN_PROGRESS;
        DivStep(|body| - p, |body| - q);
        WellFormedNeedsFewer(body, q, n - 1);
      } else {
        assert Chunked(next, n - 1) == ([], []);
      }
    }
  }

  /** One event when everything fits, chunks otherwise. */
  method SplitBody(body: bytes, extra: nat) returns (parts: seq<bytes>, notice: Notice, single: bool)
    requires |body| <= MAX_CONTENT
    ensures single <==> FRAME + extra + JsonLen(body) <= MAX_CONTENT && |body| <= TARGET
    ensures single ==> parts == [body]
    ensures notice == NoNotice && (1 <= |parts| <= 21 || body == [])
    ensures Valid(body) ==> |parts| <= 7
    ensures forall c :: c in parts ==> |c| <= TARGET && Within(c, 0)
    ensures Weaves(body, parts, [])
  {
    single := Within(body, extra) && |body| <= TARGET;
    if single {
      parts, notice := [body], NoNotice;
      assert parts[1..] == [] && parts[0] + [] == body;
      assert Weaves([], [], []);
      assert body[|parts[0] + []|..] == [];
    } else {
      hide Chunked;
      CapNeverReached(body);
      ChunkingConserves(body, MAX_CHUNKS);
      if Valid(body) {
        assert body[0..] == body;
        WellFormedNeedsFewer(body, 0, MAX_CHUNKS);
      }
      var remaining;
      parts, remaining, notice := ChunkBody(body);
    }
  }

  lemma BoundedIsEmptyIf(fullText: bytes, extra: nat)
    ensures Bounded(fullText, extra) == [] ==> fullText == []
  {
  }

  /** The body part of ConvertMessage. `html` is the JSON size of the formatted body and `other`
      that of the remaining fields. The formatted body is dropped when the content is too large
      even after the size step, and goes out only with a single body. */
  method BodyParts(fullText: bytes, other: nat, html: nat)
    returns (parts: seq<bytes>, notice: Notice, single: bool, formatted: nat)
    ensures notice == NoNotice && (1 <= |parts| <= 21 || fullText == [])
    ensures Valid(fullText) ==> |parts| <= 7
    ensures forall c :: c in parts ==> |c| <= TARGET && Within(c, 0)
    ensures Weaves(Bounded(fullText, other + html), parts, [])
    ensures formatted ==
            if FRAME + other + html + JsonLen(Bounded(fullText, other + html)) <= MAX_CONTENT then html else 0
    ensures single ==> |parts| == 1 && Within(parts[0], other + formatted)
  {
    hide Bounded, Valid, Weaves, JsonLen;
    var body := BoundBody(fullText, other + html);
    BoundedIsEmptyIf(fullText, other + html);
    formatted := html;
    if formatted > 0 && !Within(body, other + formatted) {
      formatted := 0;
    }
    parts, notice, single := SplitBody(body, other + formatted);
  }
}
