/** The PCX run-length decoder of BlitPcxToBuffer (sgp/PCX.cc), as one step
    function over an explicit state, plus an independent reference decoder
    (Expand) and an encoder used to state the round trip. */
module Rle {
  import opened Bytes

  /** PCX_NORMAL reads the next packet from the payload; PCX_RLE re-emits the
      current byte without reading. */
  datatype Mode = Normal | Rle

  /** The loop-carried variables ubMode, ubCurrentByte, ubRepCount and uiOffset. */
  datatype RleState = RleState(mode: Mode, current: byte, repCount: byte, offset: nat)

  /** The values every blit loop starts from (ubCurrentByte is initialised to 0). */
  const Initial := RleState(Normal, 0, 0, 0)

  /** A control byte has both top bits set; its low six bits are a count. */
  predicate IsControl(c: byte) { c > 0xBF }

  /** How many copies a control byte stands for. A count of zero gives 256:
      the count is decremented as a UINT8 before it is compared with 0. */
  function RunLength(c: byte): (n: nat)
    requires IsControl(c)
    ensures 1 <= n <= 256
    ensures n % 64 == c % 64
    ensures n - 1 == Dec8(c % 64)
  {
    if c % 64 == 0 then 256 else c % 64
  }

  function Repeat(v: byte, n: nat): (r: seq<byte>)
    ensures |r| == n && forall i :: 0 <= i < n ==> r[i] == v
  {
    seq(n, _ => v)
  }

  /** One iteration of the decoder: the new state, whose `current` is the byte
      produced, or None when the payload ends before a byte that must be read
      (the source reads past its buffer in that case). The low six bits
      `c & 0x3F` are written `c % 64`. */
  function Step(src: seq<byte>, s: RleState): (r: Option<RleState>)
    ensures r.None? ==> s.mode == Normal
    ensures r.Some? ==> s.offset <= r.value.offset <= s.offset + 2
    ensures r.Some? && s.mode == Rle ==> r.value.offset == s.offset && r.value.current == s.current
  {
    match s.mode
    case Normal =>
      if s.offset >= |src| then None
      else if !IsControl(src[s.offset]) then
        Some(s.(current := src[s.offset], offset := s.offset + 1))
      else if s.offset + 1 >= |src| then None
      else
        var count := Dec8(src[s.offset] % 64);
        Some(RleState(if count > 0 then Rle else Normal, src[s.offset + 1], count, s.offset + 2))
    case Rle =>
      var count := Dec8(s.repCount);
      Some(s.(mode := if count == 0 then Normal else Rle, repCount := count))
  }

  /** The bytes produced so far and the state reached. */
  datatype Trace = Trace(out: seq<byte>, last: RleState)

  /** n iterations of Step from s, or None if one of them runs out of payload. */
  function Exec(src: seq<byte>, s: RleState, n: nat): (r: Option<Trace>)
    ensures r.Some? ==> |r.value.out| == n
  {
    if n == 0 then Some(Trace([], s))
    else
      match Exec(src, s, n - 1)
      case None => None
      case Some(t) =>
        match Step(src, t.last)
        case None => None
        case Some(s') => Some(Trace(t.out + [s'.current], s'))
  }

  /** n iterations from the state every blit loop starts in. */
  function Run(src: seq<byte>, n: nat): Option<Trace>
  {
    Exec(src, Initial, n)
  }

  /** The first n decoded bytes of a payload that holds at least that many. */
  function Decode(src: seq<byte>, n: nat): (d: seq<byte>)
    requires Run(src, n).Some?
    ensures |d| == n
  {
    Run(src, n).value.out
  }

  /** Continues a trace with the outcome of further iterations. */
  function Then(t: Trace, r: Option<Trace>): Option<Trace>
  {
    match r
    case None => None
    case Some(u) => Some(Trace(t.out + u.out, u.last))
  }

  /** a + b iterations are a iterations followed by b more: the decoder's
      state carries over from one row, pixel or loop to the next. */
  lemma {:induction false} ExecSplit(src: seq<byte>, s: RleState, a: nat, b: nat)
    ensures Exec(src, s, a + b) ==
              match Exec(src, s, a)
              case None => None
              case Some(t) => Then(t, Exec(src, t.last, b))
    decreases b
  {
    if b == 0 {
      match Exec(src, s, a)
      case None =>
      case Some(t) => assert t.out + [] == t.out;
    } else {
      ExecSplit(src, s, a, b - 1);
      match Exec(src, s, a)
      case None =>
      case Some(t) =>
        match Exec(src, t.last, b - 1)
        case None =>
        case Some(u) =>
          match Step(src, u.last)
          case None =>
          case Some(s') =>
            assert t.out + u.out + [s'.current] == t.out + (u.out + [s'.current]);
    }
  }

  /** Fewer iterations produce a prefix of the output, and need no more payload. */
  lemma ExecPrefix(src: seq<byte>, s: RleState, m: nat, n: nat)
    requires m <= n && Exec(src, s, n).Some?
    ensures Exec(src, s, m).Some?
    ensures Exec(src, s, m).value.out == Exec(src, s, n).value.out[..m]
  {
    ExecSplit(src, s, m, n - m);
  }

  /** Continuing from a known trace of a iterations. */
  lemma ExecThen(src: seq<byte>, s: RleState, a: nat, n: nat, t: Trace)
    requires a <= n && Exec(src, s, a) == Some(t)
    ensures Exec(src, s, n) == Then(t, Exec(src, t.last, n - a))
  {
    ExecSplit(src, s, a, n - a);
  }

  /** Once the payload runs out, every longer run runs out too. */
  lemma ExecNoneGrows(src: seq<byte>, s: RleState, m: nat, n: nat)
    requires m <= n && Exec(src, s, m).None?
    ensures Exec(src, s, n).None?
  {
    if Exec(src, s, n).Some? {
      ExecPrefix(src, s, m, n);
    }
  }

  /** The iteration the blit loops perform at index i: it succeeds and produces
      byte i of the decoded sequence. */
  lemma StepAt(src: seq<byte>, n: nat, i: nat, st: RleState)
    requires Run(src, n).Some? && i < n
    requires Run(src, i) == Some(Trace(Decode(src, n)[..i], st))
    ensures Step(src, st).Some?
    ensures Step(src, st).value.current == Decode(src, n)[i]
    ensures Run(src, i + 1) == Some(Trace(Decode(src, n)[..i + 1], Step(src, st).value))
  {
    ExecPrefix(src, Initial, i + 1, n);
    assert Decode(src, n)[..i + 1] == Decode(src, n)[..i] + [Decode(src, n)[i]];
  }

  /** One iteration of a blit loop's decoding part: with the decoder state
      reached after i bytes of an n-byte decode, it yields byte i of that
      decode and the state after i + 1 bytes. */
  method NextByte(src: seq<byte>, ghost n: nat, ghost i: nat, st: RleState) returns (st': RleState, b: byte)
    requires Run(src, n).Some? && i < n
    requires Run(src, i) == Some(Trace(Decode(src, n)[..i], st))
    ensures b == Decode(src, n)[i]
    ensures Run(src, i + 1) == Some(Trace(Decode(src, n)[..i + 1], st'))
  {
    StepAt(src, n, i, st);
    st' := Step(src, st).value;
    b := st'.current;
  }

  /** In PCX_RLE mode with m copies left, j <= m iterations re-emit the current
      byte j times and read nothing. */
  lemma {:induction false} RepeatSteps(src: seq<byte>, t: RleState, j: nat)
    requires t.mode == Rle && 1 <= t.repCount && j <= t.repCount
    ensures Exec(src, t, j) ==
              Some(Trace(Repeat(t.current, j),
                         t.(mode := if j == t.repCount then Normal else Rle, repCount := t.repCount - j)))
    decreases j
  {
    if j == 0 {
      assert Repeat(t.current, 0) == [];
    } else {
      RepeatSteps(src, t, j - 1);
      assert Repeat(t.current, j - 1) + [t.current] == Repeat(t.current, j);
    }
  }

  /** The first iteration on a control byte reads it and the value after it. */
  lemma RunPacketStart(src: seq<byte>, s: RleState)
    requires s.mode == Normal && s.offset + 1 < |src| && IsControl(src[s.offset])
    ensures Exec(src, s, 1) ==
              Some(Trace([src[s.offset + 1]],
                         RleState(if RunLength(src[s.offset]) == 1 then Normal else Rle,
                                  src[s.offset + 1], RunLength(src[s.offset]) - 1, s.offset + 2)))
  {
    var v := src[s.offset + 1];
    assert Dec8(src[s.offset] % 64) == RunLength(src[s.offset]) - 1;
    assert [] + [v] == [v];
  }

  /** The iterations after the first one of a run packet. */
  lemma RunPacketTail(src: seq<byte>, s: RleState, j: nat)
    requires s.mode == Normal && s.offset + 1 < |src| && IsControl(src[s.offset])
    requires 2 <= j <= RunLength(src[s.offset])
    ensures Exec(src, s, j) ==
              Some(Trace(Repeat(src[s.offset + 1], j),
                         RleState(if j == RunLength(src[s.offset]) then Normal else Rle,
                                  src[s.offset + 1], RunLength(src[s.offset]) - j, s.offset + 2)))
  {
    var k := RunLength(src[s.offset]);
    var v := src[s.offset + 1];
    var s1 := RleState(Rle, v, k - 1, s.offset + 2);
    var last := RleState(if j == k then Normal else Rle, v, k - j, s.offset + 2);
    RunPacketStart(src, s);
    ExecThen(src, s, 1, j, Trace([v], s1));
    RepeatSteps(src, s1, j - 1);
    assert s1.(mode := if j - 1 == s1.repCount then Normal else Rle, repCount := s1.repCount - (j - 1)) == last;
    assert Exec(src, s, j) == Some(Trace([v] + Repeat(v, j - 1), last));
    assert [v] + Repeat(v, j - 1) == Repeat(v, j);
  }

  /** A run packet: a control byte c at the cursor followed by v gives v exactly
      RunLength(c) times, moves the cursor by exactly 2, and the cursor stays
      there until the run is over. */
  lemma RunPacket(src: seq<byte>, s: RleState, j: nat)
    requires s.mode == Normal && s.offset + 1 < |src| && IsControl(src[s.offset])
    requires 1 <= j <= RunLength(src[s.offset])
    ensures Exec(src, s, j) ==
              Some(Trace(Repeat(src[s.offset + 1], j),
                         RleState(if j == RunLength(src[s.offset]) then Normal else Rle,
                                  src[s.offset + 1], RunLength(src[s.offset]) - j, s.offset + 2)))
  {
    if j == 1 {
      RunPacketStart(src, s);
      assert Repeat(src[s.offset + 1], 1) == [src[s.offset + 1]];
    } else {
      RunPacketTail(src, s, j);
    }
  }

  /** The same run packet read from any payload that agrees on the two bytes
      of the packet gives the same result: nothing after them is read. */
  lemma RunPacketReadsTwoBytes(src: seq<byte>, src': seq<byte>, s: RleState, j: nat)
    requires s.mode == Normal && s.offset + 1 < |src| && IsControl(src[s.offset])
    requires 1 <= j <= RunLength(src[s.offset])
    requires s.offset + 1 < |src'| && src'[s.offset] == src[s.offset] && src'[s.offset + 1] == src[s.offset + 1]
    ensures Exec(src', s, j) == Exec(src, s, j)
  {
    RunPacket(src, s, j);
    RunPacket(src', s, j);
  }

  /** A literal byte (at most 0xBF) is produced unchanged, moves the cursor by
      one and leaves the decoder in PCX_NORMAL. */
  lemma LiteralPacket(src: seq<byte>, s: RleState)
    requires s.mode == Normal && s.offset < |src| && !IsControl(src[s.offset])
    ensures Exec(src, s, 1) ==
              Some(Trace([src[s.offset]], RleState(Normal, src[s.offset], s.repCount, s.offset + 1)))
  {
    assert [] + [src[s.offset]] == [src[s.offset]];
  }

  /** Reference decoder: the payload read packet by packet; a control byte
      with nothing after it contributes nothing. */
  function Expand(src: seq<byte>): seq<byte>
    decreases |src|
  {
    if |src| == 0 then []
    else if !IsControl(src[0]) then [src[0]] + Expand(src[1..])
    else if |src| == 1 then []
    else Repeat(src[1], RunLength(src[0])) + Expand(src[2..])
  }

  /** Expand on a payload that starts with a literal. */
  lemma ExpandLiteral(src: seq<byte>)
    requires |src| > 0 && !IsControl(src[0])
    ensures Expand(src) == [src[0]] + Expand(src[1..])
  {
  }

  /** Expand on a payload that starts with a whole run packet. */
  lemma ExpandRun(src: seq<byte>)
    requires |src| > 1 && IsControl(src[0])
    ensures Expand(src) == Repeat(src[1], RunLength(src[0])) + Expand(src[2..])
  {
  }

  /** The step machine from state s, asked for n bytes, succeeds exactly when
      the reference decoding of the payload from the cursor on holds n bytes,
      and then produces its first n. */
  ghost predicate AgreesWithExpand(src: seq<byte>, s: RleState, n: nat)
    requires s.offset <= |src|
  {
    && (Exec(src, s, n).Some? <==> n <= |Expand(src[s.offset..])|)
    && (Exec(src, s, n).Some? ==> Exec(src, s, n).value.out == Expand(src[s.offset..])[..n])
  }

  /** At the end of the payload, or before a control byte with no value
      after it, nothing more can be decoded. */
  lemma AgreeAtEnd(src: seq<byte>, s: RleState, n: nat)
    requires s.mode == Normal && s.offset <= |src|
    requires s.offset == |src| || (s.offset + 1 == |src| && IsControl(src[s.offset]))
    ensures AgreesWithExpand(src, s, n)
  {
    var rest := src[s.offset..];
    if s.offset < |src| {
      assert rest[0] == src[s.offset] && |rest| == 1;
    }
    assert Expand(rest) == [];
    if n > 0 {
      assert Exec(src, s, 1) == None;
      ExecNoneGrows(src, s, 1, n);
    }
  }

  /** A literal followed by what the rest of the payload decodes to. */
  lemma AgreeLiteral(src: seq<byte>, s: RleState, n: nat)
    requires s.mode == Normal && s.offset < |src| && !IsControl(src[s.offset]) && 1 <= n
    requires AgreesWithExpand(src, RleState(Normal, src[s.offset], s.repCount, s.offset + 1), n - 1)
    ensures AgreesWithExpand(src, s, n)
  {
    var c := src[s.offset];
    var s1 := RleState(Normal, c, s.repCount, s.offset + 1);
    var tail := Expand(src[s1.offset..]);
    LiteralPacket(src, s);
    ExecThen(src, s, 1, n, Trace([c], s1));
    assert src[s.offset..][1..] == src[s1.offset..];
    ExpandLiteral(src[s.offset..]);
    assert Expand(src[s.offset..]) == [c] + tail;
    match Exec(src, s1, n - 1)
    case None =>
      assert Exec(src, s, n) == None;
      assert |tail| < n - 1;
    case Some(u) =>
      assert Exec(src, s, n) == Some(Trace([c] + u.out, u.last));
      assert n - 1 <= |tail| && u.out == tail[..n - 1];
      assert ([c] + tail)[..n] == [c] + tail[..n - 1];
  }

  /** Bytes asked for that lie inside the first run packet. */
  lemma AgreeInsideRun(src: seq<byte>, s: RleState, n: nat)
    requires s.mode == Normal && s.offset + 1 < |src| && IsControl(src[s.offset])
    requires 1 <= n <= RunLength(src[s.offset])
    ensures AgreesWithExpand(src, s, n)
  {
    var k := RunLength(src[s.offset]);
    var v := src[s.offset + 1];
    var tail := Expand(src[s.offset + 2..]);
    assert src[s.offset..][2..] == src[s.offset + 2..];
    ExpandRun(src[s.offset..]);
    assert Expand(src[s.offset..]) == Repeat(v, k) + tail;
    RunPacket(src, s, n);
    assert (Repeat(v, k) + tail)[..n] == Repeat(v, n);
  }

  /** A whole run packet followed by what the rest of the payload decodes to. */
  lemma AgreeAfterRun(src: seq<byte>, s: RleState, n: nat)
    requires s.mode == Normal && s.offset + 1 < |src| && IsControl(src[s.offset])
    requires RunLength(src[s.offset]) < n
    requires AgreesWithExpand(src, RleState(Normal, src[s.offset + 1], 0, s.offset + 2), n - RunLength(src[s.offset]))
    ensures AgreesWithExpand(src, s, n)
  {
    var k := RunLength(src[s.offset]);
    var v := src[s.offset + 1];
    var s2 := RleState(Normal, v, 0, s.offset + 2);
    var tail := Expand(src[s2.offset..]);
    assert src[s.offset..][2..] == src[s2.offset..];
    ExpandRun(src[s.offset..]);
    assert Expand(src[s.offset..]) == Repeat(v, k) + tail;
    RunPacket(src, s, k);
    ExecThen(src, s, k, n, Trace(Repeat(v, k), s2));
    assert |Expand(src[s.offset..])| == k + |tail|;
    match Exec(src, s2, n - k)
    case None =>
      assert Exec(src, s, n) == None;
      assert |tail| < n - k;
    case Some(u) =>
      assert Exec(src, s, n) == Some(Trace(Repeat(v, k) + u.out, u.last));
      assert n - k <= |tail| && u.out == tail[..n - k];
      assert (Repeat(v, k) + tail)[..n] == Repeat(v, k) + tail[..n - k];
  }

  /** From any PCX_NORMAL state, the step machine produces exactly a prefix of
      the reference decoding of the rest of the payload, and it runs out of
      payload exactly when more bytes are asked for than that decoding holds. */
  lemma {:induction false} ExecAgreesWithExpand(src: seq<byte>, s: RleState, n: nat)
    requires s.mode == Normal && s.offset <= |src|
    ensures AgreesWithExpand(src, s, n)
    decreases |src| - s.offset
  {
    if n == 0 {
      assert Exec(src, s, 0) == Some(Trace([], s));
    } else if s.offset == |src| || (s.offset + 1 == |src| && IsControl(src[s.offset])) {
      AgreeAtEnd(src, s, n);
    } else if !IsControl(src[s.offset]) {
      ExecAgreesWithExpand(src, RleState(Normal, src[s.offset], s.repCount, s.offset + 1), n - 1);
      AgreeLiteral(src, s, n);
    } else if n <= RunLength(src[s.offset]) {
      AgreeInsideRun(src, s, n);
    } else {
      ExecAgreesWithExpand(src, RleState(Normal, src[s.offset + 1], 0, s.offset + 2), n - RunLength(src[s.offset]));
      AgreeAfterRun(src, s, n);
    }
  }

  /** What the blit loops decode: the payload holds n decoded bytes exactly when
      the reference decoding is at least n long, and they are its first n. */
  lemma DecodeIsExpandPrefix(src: seq<byte>, n: nat)
    ensures Run(src, n).Some? <==> n <= |Expand(src)|
    ensures Run(src, n).Some? ==> Decode(src, n) == Expand(src)[..n]
  {
    assert src[0..] == src;
    ExecAgreesWithExpand(src, Initial, n);
  }

  /** Counts how many bytes from index i on repeat s[0], up to cap. */
  function SameFrom(s: seq<byte>, i: nat, cap: nat): (k: nat)
    requires 1 <= i <= cap && i <= |s|
    requires forall j :: 0 <= j < i ==> s[j] == s[0]
    ensures i <= k <= cap && k <= |s|
    ensures forall j :: 0 <= j < k ==> s[j] == s[0]
    decreases |s| - i
  {
    if i < |s| && i < cap && s[i] == s[0] then SameFrom(s, i + 1, cap) else i
  }

  /** Reference encoder (the repository has none): runs of up to 63 copies
      become a control byte and a value; a single byte at most 0xBF stays a
      literal. */
  function Encode(px: seq<byte>): seq<byte>
    decreases |px|
  {
    if px == [] then []
    else
      var k := SameFrom(px, 1, 63);
      if k == 1 && !IsControl(px[0]) then [px[0]] + Encode(px[1..])
      else [0xC0 + k, px[0]] + Encode(px[k..])
  }

  /** The reference decoder inverts the encoder. */
  lemma {:induction false} ExpandEncode(px: seq<byte>)
    ensures Expand(Encode(px)) == px
    decreases |px|
  {
    if px != [] {
      var k := SameFrom(px, 1, 63);
      if k == 1 && !IsControl(px[0]) {
        var e := Encode(px[1..]);
        assert Encode(px) == [px[0]] + e;
        assert ([px[0]] + e)[1..] == e;
        ExpandLiteral([px[0]] + e);
        ExpandEncode(px[1..]);
        assert px == [px[0]] + px[1..];
      } else {
        var e := Encode(px[k..]);
        var c: byte := 0xC0 + k;
        assert Encode(px) == [c, px[0]] + e;
        assert ([c, px[0]] + e)[2..] == e;
        assert RunLength(c) == k;
        ExpandRun([c, px[0]] + e);
        ExpandEncode(px[k..]);
        assert px[..k] == Repeat(px[0], k);
        assert px == px[..k] + px[k..];
      }
    }
  }

  /** Round trip: the blit loops decode an encoded pixel sequence back to
      itself, reading no further than its encoding. */
  lemma DecodeEncode(px: seq<byte>)
    ensures Run(Encode(px), |px|).Some?
    ensures Decode(Encode(px), |px|) == px
  {
    ExpandEncode(px);
    DecodeIsExpandPrefix(Encode(px), |px|);
    assert px[..|px|] == px;
  }
}
