/** The dictionary of a BSD-Compress peer as a plain list of (prefix, suffix)
    entries, and what one packet does to it: the code sequence the compressor
    emits, what the decompressor makes of a bit string, and the proof that the
    two stay in step. Code 257 + i names entry i. */
module Lzw {
  import opened Bits
  import opened Marks
  import opened Options

  const CLEAR: nat := 256
  const FIRST: nat := 257
  const LAST: nat := 255

  /** The bytes that one buffer of the decompressor's output holds. */
  const CLUSTER: nat := 2048

  datatype Entry = Entry(prefix: nat, suffix: u8)

  /** The largest code of a given width. */
  function MaxCode(width: nat): nat {
    Pow2(width) - 1
  }

  function MaxEnt(d: seq<Entry>): nat {
    CLEAR + |d|
  }

  /** Codes that stand for a string: the single bytes and the entries of d. */
  predicate IsCode(d: seq<Entry>, code: nat) {
    code <= LAST || FIRST <= code <= MaxEnt(d)
  }

  /** Every entry extends a string that was known before it. */
  ghost predicate WellFormed(d: seq<Entry>) {
    forall i :: 0 <= i < |d| ==> IsCode(d[..i], d[i].prefix)
  }

  /** No string is entered twice. */
  ghost predicate Distinct(d: seq<Entry>) {
    forall i, j :: 0 <= i < j < |d| ==> d[i] != d[j]
  }

  /** The first code assigned to an entry. */
  function Lookup(d: seq<Entry>, e: Entry): (r: Option<nat>)
    ensures r.Some? ==> FIRST <= r.value <= MaxEnt(d)
  {
    if d == [] then None
    else
      var r := Lookup(d[..|d| - 1], e);
      if r.Some? then r
      else if d[|d| - 1] == e then Some(MaxEnt(d))
      else None
  }

  /** Lookup finds an entry exactly if it is there, and then its first code. */
  lemma {:induction false} LookupFinds(d: seq<Entry>, e: Entry)
    ensures var r := Lookup(d, e);
      && (r.None? ==> e !in d)
      && (r.Some? ==> d[r.value - FIRST] == e && e !in d[..r.value - FIRST])
  {
    if d != [] {
      var d' := d[..|d| - 1];
      LookupFinds(d', e);
      var r := Lookup(d', e);
      if r.Some? {
        assert d[..r.value - FIRST] == d'[..r.value - FIRST];
      }
      assert d == d' + [d[|d| - 1]];
    }
  }

  /** The string a code stands for. */
  function Expand(d: seq<Entry>, code: nat): (s: seq<u8>)
    requires WellFormed(d) && IsCode(d, code)
    ensures |s| >= 1
    decreases code
  {
    if code <= LAST then [code]
    else
      var e := d[code - FIRST];
      Expand(d, e.prefix) + [e.suffix]
  }

  /** Later entries do not change what a code stands for. */
  lemma {:induction false} ExpandPrefix(d: seq<Entry>, d': seq<Entry>, code: nat)
    requires WellFormed(d) && WellFormed(d') && d <= d' && IsCode(d, code)
    ensures Expand(d', code) == Expand(d, code)
    decreases code
  {
    if code > LAST {
      ExpandPrefix(d, d', d[code - FIRST].prefix);
    }
  }

  /** A code's string is short enough for a 16-bit length. */
  lemma {:induction false} ExpandLength(d: seq<Entry>, code: nat)
    requires WellFormed(d) && IsCode(d, code)
    ensures |Expand(d, code)| <= if code <= LAST then 1 else code - LAST
    decreases code
  {
    if code > LAST {
      ExpandLength(d, d[code - FIRST].prefix);
    }
  }

  lemma WellFormedSnoc(d: seq<Entry>, e: Entry)
    requires WellFormed(d) && IsCode(d, e.prefix)
    ensures WellFormed(d + [e])
  {
    var d' := d + [e];
    forall i | 0 <= i < |d'|
      ensures IsCode(d'[..i], d'[i].prefix)
    {
      assert d'[..i] == d[..i];
    }
  }

  // ----- the compressor

  datatype Code = Code(value: nat, width: nat)

  /** The codes a compressor emits, and the dictionary and code width it ends with. */
  datatype Encoded = Encoded(codes: seq<Code>, dict: seq<Entry>, width: nat)

  /** The width used after entry number MaxEnt(d) + 1 is about to be added. */
  function Widen(d: seq<Entry>, width: nat): nat {
    if MaxEnt(d) >= MaxCode(width) then width + 1 else width
  }

  /** Entering a new string while there is room. */
  function Enter(d: seq<Entry>, width: nat, e: Entry, limit: nat): (seq<Entry>, nat) {
    if MaxEnt(d) < limit then (d + [e], Widen(d, width)) else (d, width)
  }

  /** Continue compressing data when the longest match so far is code ent. */
  function Encode(d: seq<Entry>, width: nat, ent: nat, data: seq<u8>, limit: nat): Encoded
    decreases |data|
  {
    if data == [] then
      Encoded([Code(ent, width)], d, width)
    else
      var e := Entry(ent, data[0]);
      match Lookup(d, e)
      case Some(code) => Encode(d, width, code, data[1..], limit)
      case None =>
        var (d', width') := Enter(d, width, e, limit);
        var rest := Encode(d', width', data[0], data[1..], limit);
        Encoded([Code(ent, width)] + rest.codes, rest.dict, rest.width)
  }

  /** Codes emitted before the rest of a packet is compressed. */
  function After(sent: seq<Code>, e: Encoded): Encoded {
    e.(codes := sent + e.codes)
  }

  /** One byte of compression: a byte either extends the match or ends it. */
  lemma EncodeByte(d: seq<Entry>, width: nat, ent: nat, c: u8, rest: seq<u8>, limit: nat)
    ensures var all := Encode(d, width, ent, [c] + rest, limit);
      match Lookup(d, Entry(ent, c))
      case Some(code) => all == Encode(d, width, code, rest, limit)
      case None =>
        var (d1, w1) := Enter(d, width, Entry(ent, c), limit);
        all == After([Code(ent, width)], Encode(d1, w1, c, rest, limit))
  {
    assert ([c] + rest)[1..] == rest;
  }

  lemma AfterAfter(a: seq<Code>, b: seq<Code>, e: Encoded)
    ensures After(a, After(b, e)) == After(a + b, e)
  {
    assert a + (b + e.codes) == a + b + e.codes;
  }

  function CodeBits(codes: seq<Code>): seq<bool> {
    if codes == [] then []
    else BitsOf(codes[0].value, codes[0].width) + CodeBits(codes[1..])
  }

  lemma {:induction false} CodeBitsAppend(a: seq<Code>, b: seq<Code>)
    ensures CodeBits(a + b) == CodeBits(a) + CodeBits(b)
  {
    if a == [] {
      assert a + b == b;
    } else {
      assert (a + b)[1..] == a[1..] + b;
      CodeBitsAppend(a[1..], b);
    }
  }

  /** Codes always fit their width: between packets there is room for one more
      entry, within a packet for none. */
  predicate WidthOk(d: seq<Entry>, width: nat, limit: nat)
  {
    && width >= 9
    && MaxEnt(d) <= limit
    && MaxEnt(d) <= MaxCode(width) <= limit
  }

  predicate WidthReady(d: seq<Entry>, width: nat, limit: nat) {
    && WidthOk(d, width, limit)
    && (MaxEnt(d) < limit ==> MaxEnt(d) < MaxCode(width))
  }

  // ----- the decompressor

  /** Where the decompressor stands: its dictionary, code width, previous code
      (CLEAR before the first one) and the bytes written so far. */
  datatype Decoder = Decoder(dict: seq<Entry>, width: nat, prev: nat, out: seq<u8>)

  /** How a packet ends. TooLong: a code's string does not fit one buffer. Undefined:
      the decompressor goes on from a code that it accepted although no entry has it;
      it then reads lengths never set and enters a string that is its own prefix, and
      nothing is said about what follows. */
  datatype Outcome = Finished | Cleared | Fatal | TooLong | Undefined

  datatype Decoded = Decoded(outcome: Outcome, state: Decoder)

  /** The acceptance test for a code that is not CLEAR. */
  predicate Rejected(s: Decoder, code: nat, limit: nat) {
    code > MaxEnt(s.dict) + 2 || code > limit || (code > MaxEnt(s.dict) && s.prev == CLEAR)
  }

  /** The last accepted code names no entry. */
  predicate Dangling(s: Decoder) {
    s.prev > MaxEnt(s.dict)
  }

  ghost predicate DecoderOk(s: Decoder, limit: nat) {
    && WellFormed(s.dict)
    && WidthReady(s.dict, s.width, limit)
    && (s.prev == CLEAR || IsCode(s.dict, s.prev) || s.prev == MaxEnt(s.dict) + 1 <= limit)
  }

  /** The string an accepted code stands for; a code not yet assigned repeats the
      previous string and its first byte (the KwKwK case). */
  function CodeString(s: Decoder, code: nat): (r: seq<u8>)
    requires WellFormed(s.dict)
    requires IsCode(s.dict, if code > MaxEnt(s.dict) then s.prev else code)
    ensures |r| >= 1
  {
    if code > MaxEnt(s.dict)
    then var w := Expand(s.dict, s.prev); w + [w[0]]
    else Expand(s.dict, code)
  }

  /** The state after an accepted code: a new entry pairs the previous code with
      the first byte of this string. */
  function Accept(s: Decoder, code: nat, limit: nat): Decoder
    requires WellFormed(s.dict)
    requires IsCode(s.dict, if code > MaxEnt(s.dict) then s.prev else code)
  {
    var w := CodeString(s, code);
    if s.prev != CLEAR && MaxEnt(s.dict) < limit then
      var d := s.dict + [Entry(s.prev, w[0])];
      var width := if MaxEnt(d) >= MaxCode(s.width) && MaxEnt(d) < limit then s.width + 1 else s.width;
      Decoder(d, width, code, s.out + w)
    else
      s.(prev := code, out := s.out + w)
  }

  lemma MaxCodeWiden(width: nat, limit: nat, maxbits: nat)
    requires limit == MaxCode(maxbits) && MaxCode(width) < limit
    ensures width < maxbits && MaxCode(width + 1) <= limit
  {
    if width >= maxbits {
      Pow2Mono(maxbits, width);
    } else {
      Pow2Mono(width + 1, maxbits);
    }
  }

  lemma AcceptOk(s: Decoder, code: nat, limit: nat, maxbits: nat)
    requires limit == MaxCode(maxbits)
    requires DecoderOk(s, limit) && !Dangling(s) && code != CLEAR && !Rejected(s, code, limit)
    ensures DecoderOk(Accept(s, code, limit), limit)
  {
    if s.prev != CLEAR && MaxEnt(s.dict) < limit {
      var e := Entry(s.prev, CodeString(s, code)[0]);
      WellFormedSnoc(s.dict, e);
      var d := s.dict + [e];
      if MaxEnt(d) >= MaxCode(s.width) && MaxEnt(d) < limit {
        MaxCodeWiden(s.width, limit, maxbits);
      }
    }
  }

  /** Why a code that is not CLEAR ends the packet, if it does. A packet may not
      exceed mru + 1 bytes, and a string may not exceed a buffer. */
  function Verdict(s: Decoder, code: nat, limit: nat, mru: nat): (r: Option<Outcome>)
    requires DecoderOk(s, limit) && code != CLEAR
    ensures r.None? ==> !Rejected(s, code, limit) && !Dangling(s)
    ensures r.Some? ==> r.value == Fatal || r.value == TooLong || r.value == Undefined
  {
    if Rejected(s, code, limit) then Some(Fatal)
    else if Dangling(s) && code > MaxEnt(s.dict) then Some(Undefined)
    else if |s.out| + |CodeString(s, code)| > mru + 1 then Some(Fatal)
    else if |CodeString(s, code)| > CLUSTER then Some(TooLong)
    else if Dangling(s) then Some(Undefined)
    else None
  }

  /** What the decompressor makes of the bits of a packet. A CLEAR must end it. */
  function Decode(s: Decoder, bits: seq<bool>, limit: nat, mru: nat, maxbits: nat): (r: Decoded)
    requires limit == MaxCode(maxbits) && DecoderOk(s, limit)
    ensures DecoderOk(r.state, limit)
    decreases |bits|
  {
    if |bits| < s.width then Decoded(Finished, s)
    else
      var code := Num(bits[..s.width]);
      var rest := bits[s.width..];
      if code == CLEAR then
        Decoded(if |rest| >= 8 then Fatal else Cleared, s)
      else
        match Verdict(s, code, limit, mru)
        case Some(outcome) => Decoded(outcome, s)
        case None =>
          AcceptOk(s, code, limit, maxbits);
          Decode(Accept(s, code, limit), rest, limit, mru, maxbits)
  }

  // ----- keeping in step

  /** The compressor, having emitted all but the last match ent, and the
      decompressor, having read what was emitted: the compressor is ahead by the
      one entry whose second half the decompressor has not seen yet. */
  ghost predicate InStep(d: seq<Entry>, width: nat, ent: nat, s: Decoder, limit: nat) {
    && WellFormed(d) && IsCode(d, ent) && WidthOk(d, width, limit)
    && DecoderOk(s, limit) && !Dangling(s)
    && s.width == width
    && if s.prev == CLEAR || MaxEnt(s.dict) >= limit then d == s.dict
       else d == s.dict + [Entry(s.prev, Expand(d, ent)[0])]
  }

  /** The decompressor reads the code the compressor emits for ent: it writes the
      string and catches up. */
  lemma ReadCode(d: seq<Entry>, width: nat, ent: nat, s: Decoder, limit: nat)
    requires InStep(d, width, ent, s, limit)
    ensures ent != CLEAR && !Rejected(s, ent, limit)
    ensures IsCode(s.dict, if ent > MaxEnt(s.dict) then s.prev else ent)
    ensures CodeString(s, ent) == Expand(d, ent)
    ensures Accept(s, ent, limit).dict == d
  {
    if ent > MaxEnt(s.dict) {
      assert Expand(d, ent) == Expand(d, s.prev) + [Expand(d, ent)[0]];
      ExpandPrefix(s.dict, d, s.prev);
    } else {
      ExpandPrefix(s.dict, d, ent);
    }
  }

  lemma {:induction false} FirstByte(d: seq<Entry>, e: Entry, code: nat)
    requires WellFormed(d) && FIRST <= code <= MaxEnt(d) && d[code - FIRST] == e
    ensures Expand(d, code) == Expand(d, e.prefix) + [e.suffix]
    ensures Expand(d, code)[0] == Expand(d, e.prefix)[0]
  {
  }

  /** The width both sides use after the last code of a packet. */
  function EndWidth(d: seq<Entry>, width: nat, limit: nat): nat {
    if MaxEnt(d) >= MaxCode(width) && MaxEnt(d) < limit then width + 1 else width
  }

  lemma ReadCodeWidth(d: seq<Entry>, width: nat, ent: nat, s: Decoder, limit: nat)
    requires InStep(d, width, ent, s, limit)
    requires IsCode(s.dict, if ent > MaxEnt(s.dict) then s.prev else ent)
    requires Accept(s, ent, limit).dict == d
    ensures Accept(s, ent, limit).width == EndWidth(d, width, limit)
  {
  }

  /** The decompressor takes a code without complaint. */
  ghost predicate Takes(s: Decoder, code: Code, limit: nat, mru: nat) {
    && DecoderOk(s, limit) && !Dangling(s)
    && code.width == s.width && code.value < Pow2(code.width)
    && code.value != CLEAR && !Rejected(s, code.value, limit)
    && |s.out| + |CodeString(s, code.value)| <= mru + 1
    && |CodeString(s, code.value)| <= CLUSTER
  }

  /** Reading the codes one after the other leads from s to s'. */
  ghost predicate Follows(s: Decoder, codes: seq<Code>, s': Decoder, limit: nat, mru: nat)
    decreases |codes|
  {
    if codes == [] then s' == s
    else Takes(s, codes[0], limit, mru) && Follows(Accept(s, codes[0].value, limit), codes[1..], s', limit, mru)
  }

  /** A run over codes is a run over their bits. */
  lemma {:induction false} DecodeFollows(s: Decoder, codes: seq<Code>, s': Decoder, tail: seq<bool>,
                                         limit: nat, mru: nat, maxbits: nat)
    requires limit == MaxCode(maxbits) && DecoderOk(s, limit)
    requires Follows(s, codes, s', limit, mru)
    ensures DecoderOk(s', limit)
    ensures Decode(s, CodeBits(codes) + tail, limit, mru, maxbits) == Decode(s', tail, limit, mru, maxbits)
    decreases |codes|
  {
    if codes == [] {
      assert CodeBits(codes) + tail == tail;
    } else {
      CodesSplit(codes, tail);
      DecodeCode(s, codes[0], CodeBits(codes[1..]) + tail, limit, mru, maxbits);
      DecodeFollows(Accept(s, codes[0].value, limit), codes[1..], s', tail, limit, mru, maxbits);
    }
  }

  /** The decompressor reads the code emitted for the match ent. */
  lemma ReadMatch(d: seq<Entry>, width: nat, ent: nat, s: Decoder, limit: nat, mru: nat, maxbits: nat)
    requires limit == MaxCode(maxbits) && InStep(d, width, ent, s, limit)
    requires |s.out| + |Expand(d, ent)| <= mru + 1 && |Expand(d, ent)| <= CLUSTER
    ensures Takes(s, Code(ent, width), limit, mru)
    ensures var s' := Accept(s, ent, limit);
      && s' == Decoder(d, EndWidth(d, width, limit), ent, s.out + Expand(d, ent))
      && DecoderOk(s', limit) && !Dangling(s')
  {
    ReadCode(d, width, ent, s, limit);
    ReadCodeWidth(d, width, ent, s, limit);
    AcceptOk(s, ent, limit, maxbits);
  }

  /** After emitting ent the compressor enters (ent, c) if there is room and
      starts a new match with c; the two sides are in step again. */
  lemma NextMatch(d: seq<Entry>, width: nat, ent: nat, c: u8, s': Decoder, limit: nat, maxbits: nat)
    requires limit == MaxCode(maxbits)
    requires WellFormed(d) && IsCode(d, ent) && WidthOk(d, width, limit)
    requires DecoderOk(s', limit) && !Dangling(s')
    requires s'.dict == d && s'.width == EndWidth(d, width, limit) && s'.prev == ent
    ensures var (d1, w1) := Enter(d, width, Entry(ent, c), limit);
      InStep(d1, w1, c, s', limit)
  {
    if MaxEnt(d) < limit {
      WellFormedSnoc(d, Entry(ent, c));
      if MaxEnt(d) >= MaxCode(width) {
        MaxCodeWiden(width, limit, maxbits);
      }
    }
  }

  /** The byte c extends the match: still in step. */
  lemma ExtendMatch(d: seq<Entry>, width: nat, ent: nat, c: u8, code: nat, s: Decoder, limit: nat)
    requires InStep(d, width, ent, s, limit) && Lookup(d, Entry(ent, c)) == Some(code)
    ensures InStep(d, width, code, s, limit)
    ensures Expand(d, code) == Expand(d, ent) + [c]
  {
    LookupFinds(d, Entry(ent, c));
    FirstByte(d, Entry(ent, c), code);
  }

  /** The byte c ends the match: the code goes out, the decompressor reads it. */
  lemma EmitMatch(d: seq<Entry>, width: nat, ent: nat, c: u8, s: Decoder, limit: nat, mru: nat, maxbits: nat)
      returns (s1: Decoder)
    requires limit == MaxCode(maxbits) && InStep(d, width, ent, s, limit)
    requires |s.out| + |Expand(d, ent)| <= mru + 1 && |Expand(d, ent)| <= CLUSTER
    ensures Takes(s, Code(ent, width), limit, mru) && s1 == Accept(s, ent, limit)
    ensures s1.out == s.out + Expand(d, ent)
    ensures var (d1, w1) := Enter(d, width, Entry(ent, c), limit);
      InStep(d1, w1, c, s1, limit) && Expand(d1, c) == [c]
  {
    ReadMatch(d, width, ent, s, limit, mru, maxbits);
    s1 := Accept(s, ent, limit);
    NextMatch(d, width, ent, c, s1, limit, maxbits);
  }

  /** The state that reading the rest of a packet must lead to. */
  ghost predicate CaughtUp(s': Decoder, e: Encoded, out: seq<u8>, limit: nat) {
    && DecoderOk(s', limit) && !Dangling(s')
    && s'.dict == e.dict && s'.width == EndWidth(e.dict, e.width, limit)
    && s'.out == out
  }

  /** No code that was put out stands for more than a buffer holds. */
  ghost predicate Short(e: Encoded) {
    && WellFormed(e.dict)
    && (forall i :: 0 <= i < |e.codes| ==> IsCode(e.dict, e.codes[i].value))
    && (forall i :: 0 <= i < |e.codes| ==> |Expand(e.dict, e.codes[i].value)| <= CLUSTER)
  }

  lemma ShortFirst(d: seq<Entry>, width: nat, ent: nat, data: seq<u8>, limit: nat, maxbits: nat)
    requires limit == MaxCode(maxbits)
    requires WellFormed(d) && IsCode(d, ent) && WidthOk(d, width, limit)
    requires data == [] || Lookup(d, Entry(ent, data[0])).None?
    ensures Short(Encode(d, width, ent, data, limit)) ==> |Expand(d, ent)| <= CLUSTER
  {
    var e := Encode(d, width, ent, data, limit);
    EncodeKeeps(d, width, ent, data, limit, maxbits);
    if Short(e) {
      assert e.codes[0].value == ent;
      ExpandPrefix(d, e.dict, ent);
    }
  }

  lemma ShortRest(e: Encoded, code: Code, rest: Encoded)
    requires e == After([code], rest)
    ensures Short(e) ==> Short(rest)
    ensures Short(rest) && IsCode(rest.dict, code.value) && |Expand(rest.dict, code.value)| <= CLUSTER ==> Short(e)
  {
    assert forall i :: 0 <= i < |rest.codes| ==> rest.codes[i] == e.codes[i + 1];
  }

  /** Data no longer than a buffer, or codes too few for longer strings. */
  predicate Sized(n: nat, limit: nat) {
    n <= CLUSTER || limit <= LAST + CLUSTER
  }

  /** Then no string is too long. */
  lemma {:induction false} SizedShort(d: seq<Entry>, width: nat, ent: nat, data: seq<u8>, limit: nat, maxbits: nat)
    requires limit == MaxCode(maxbits)
    requires WellFormed(d) && IsCode(d, ent) && WidthOk(d, width, limit)
    requires Sized(|Expand(d, ent)| + |data|, limit)
    ensures Short(Encode(d, width, ent, data, limit))
    decreases |data|
  {
    ExpandLength(d, ent);
    assert |Expand(d, ent)| <= CLUSTER;
    if data != [] {
      var c := data[0];
      match Lookup(d, Entry(ent, c))
      case Some(code) =>
        LookupFinds(d, Entry(ent, c));
        FirstByte(d, Entry(ent, c), code);
        SizedShort(d, width, code, data[1..], limit, maxbits);
      case None =>
        var (d1, w1) := Enter(d, width, Entry(ent, c), limit);
        var rest := Encode(d1, w1, c, data[1..], limit);
        EnterKeeps(d, width, Entry(ent, c), limit, maxbits);
        SizedShort(d1, w1, c, data[1..], limit, maxbits);
        EncodeKeeps(d1, w1, c, data[1..], limit, maxbits);
        ExpandPrefix(d, rest.dict, ent);
        ShortRest(Encode(d, width, ent, data, limit), Code(ent, width), rest);
    }
  }

  /** Reading the codes of the rest of a packet yields the rest of the packet,
      and leaves the dictionary and the width the compressor left. */
  lemma {:induction false} ReadEncoded(
      d: seq<Entry>, width: nat, ent: nat, data: seq<u8>, s: Decoder,
      limit: nat, mru: nat, maxbits: nat) returns (s': Decoder)
    requires limit == MaxCode(maxbits) && InStep(d, width, ent, s, limit)
    requires |s.out| + |Expand(d, ent)| + |data| <= mru + 1
    requires Short(Encode(d, width, ent, data, limit))
    ensures var e := Encode(d, width, ent, data, limit);
      && CaughtUp(s', e, s.out + Expand(d, ent) + data, limit)
      && Follows(s, e.codes, s', limit, mru)
    decreases |data|
  {
    if data == [] {
      ShortFirst(d, width, ent, data, limit, maxbits);
      ReadMatch(d, width, ent, s, limit, mru, maxbits);
      s' := Accept(s, ent, limit);
      assert s.out + Expand(d, ent) + data == s.out + Expand(d, ent);
    } else {
      var c, data' := data[0], data[1..];
      Regroup(s.out, Expand(d, ent), data);
      match Lookup(d, Entry(ent, c))
      case Some(code) =>
        ExtendMatch(d, width, ent, c, code, s, limit);
        s' := ReadEncoded(d, width, code, data', s, limit, mru, maxbits);
      case None =>
        var (d1, w1) := Enter(d, width, Entry(ent, c), limit);
        ShortFirst(d, width, ent, data, limit, maxbits);
        ShortRest(Encode(d, width, ent, data, limit), Code(ent, width), Encode(d1, w1, c, data', limit));
        var s1 := EmitMatch(d, width, ent, c, s, limit, mru, maxbits);
        s' := ReadEncoded(d1, w1, c, data', s1, limit, mru, maxbits);
        FollowsCons(s, Code(ent, width), Encode(d1, w1, c, data', limit).codes, s', limit, mru);
    }
  }

  /** And if some string is too long, the decompressor stops at the first such. */
  lemma {:induction false} ReadTooLong(
      d: seq<Entry>, width: nat, ent: nat, data: seq<u8>, s: Decoder, tail: seq<bool>,
      limit: nat, mru: nat, maxbits: nat)
    requires limit == MaxCode(maxbits) && InStep(d, width, ent, s, limit)
    requires |s.out| + |Expand(d, ent)| + |data| <= mru + 1
    requires !Short(Encode(d, width, ent, data, limit))
    ensures Decode(s, CodeBits(Encode(d, width, ent, data, limit).codes) + tail, limit, mru, maxbits).outcome == TooLong
    decreases |data|
  {
    if data != [] && Lookup(d, Entry(ent, data[0])).Some? {
      var code := Lookup(d, Entry(ent, data[0])).value;
      ExtendMatch(d, width, ent, data[0], code, s, limit);
      ReadTooLong(d, width, code, data[1..], s, tail, limit, mru, maxbits);
    } else if |Expand(d, ent)| > CLUSTER {
      var rest := Encode(d, width, ent, data, limit).codes[1..];
      CodesSplit(Encode(d, width, ent, data, limit).codes, tail);
      StopTooLong(d, width, ent, s, CodeBits(rest) + tail, limit, mru, maxbits);
    } else if data != [] {
      var c, data' := data[0], data[1..];
      var (d1, w1) := Enter(d, width, Entry(ent, c), limit);
      NotShortRest(d, width, ent, data, limit, maxbits);
      var s1 := EmitMatch(d, width, ent, c, s, limit, mru, maxbits);
      ReadTooLong(d1, w1, c, data', s1, tail, limit, mru, maxbits);
      CodesSplit(Encode(d, width, ent, data, limit).codes, tail);
      DecodeCode(s, Code(ent, width), CodeBits(Encode(d1, w1, c, data', limit).codes) + tail, limit, mru, maxbits);
    }
  }

  lemma CodesSplit(codes: seq<Code>, tail: seq<bool>)
    requires codes != []
    ensures CodeBits(codes) + tail == BitsOf(codes[0].value, codes[0].width) + (CodeBits(codes[1..]) + tail)
  {
  }

  /** A code that is taken is one step of the run. */
  lemma DecodeCode(s: Decoder, code: Code, tail: seq<bool>, limit: nat, mru: nat, maxbits: nat)
    requires limit == MaxCode(maxbits) && Takes(s, code, limit, mru)
    ensures DecoderOk(Accept(s, code.value, limit), limit)
    ensures Decode(s, BitsOf(code.value, code.width) + tail, limit, mru, maxbits)
         == Decode(Accept(s, code.value, limit), tail, limit, mru, maxbits)
  {
    var bits := BitsOf(code.value, code.width) + tail;
    assert bits[..code.width] == BitsOf(code.value, code.width) && bits[code.width..] == tail;
    NumBitsOf(code.value, code.width);
    AcceptOk(s, code.value, limit, maxbits);
  }

  /** If the first code's string is short the trouble is further on. */
  lemma NotShortRest(d: seq<Entry>, width: nat, ent: nat, data: seq<u8>, limit: nat, maxbits: nat)
    requires limit == MaxCode(maxbits)
    requires WellFormed(d) && IsCode(d, ent) && WidthOk(d, width, limit)
    requires data != [] && Lookup(d, Entry(ent, data[0])).None? && |Expand(d, ent)| <= CLUSTER
    requires !Short(Encode(d, width, ent, data, limit))
    ensures var (d1, w1) := Enter(d, width, Entry(ent, data[0]), limit);
      !Short(Encode(d1, w1, data[0], data[1..], limit))
  {
    var c, data' := data[0], data[1..];
    var (d1, w1) := Enter(d, width, Entry(ent, c), limit);
    var e1 := Encode(d1, w1, c, data', limit);
    EnterKeeps(d, width, Entry(ent, c), limit, maxbits);
    EncodeKeeps(d1, w1, c, data', limit, maxbits);
    ExpandPrefix(d, e1.dict, ent);
    ShortRest(Encode(d, width, ent, data, limit), Code(ent, width), e1);
  }

  lemma StopTooLong(d: seq<Entry>, width: nat, ent: nat, s: Decoder, tail: seq<bool>, limit: nat, mru: nat, maxbits: nat)
    requires limit == MaxCode(maxbits) && InStep(d, width, ent, s, limit)
    requires |s.out| + |Expand(d, ent)| <= mru + 1 && |Expand(d, ent)| > CLUSTER
    ensures Decode(s, BitsOf(ent, width) + tail, limit, mru, maxbits) == Decoded(TooLong, s)
  {
    ReadCode(d, width, ent, s, limit);
    var bits := BitsOf(ent, width) + tail;
    assert bits[..width] == BitsOf(ent, width);
    NumBitsOf(ent, width);
  }

  lemma FollowsCons(s: Decoder, code: Code, codes: seq<Code>, s': Decoder, limit: nat, mru: nat)
    requires Takes(s, code, limit, mru) && Follows(Accept(s, code.value, limit), codes, s', limit, mru)
    ensures Follows(s, [code] + codes, s', limit, mru)
  {
    assert ([code] + codes)[1..] == codes;
  }

  lemma CodeBitsCons(code: Code, codes: seq<Code>)
    ensures CodeBits([code] + codes) == BitsOf(code.value, code.width) + CodeBits(codes)
  {
    assert ([code] + codes)[1..] == codes;
  }

  lemma Regroup(out: seq<u8>, w: seq<u8>, data: seq<u8>)
    requires data != []
    ensures out + (w + [data[0]]) + data[1..] == out + w + data
    ensures out + w + [data[0]] + data[1..] == out + w + data
  {
    assert [data[0]] + data[1..] == data;
  }

  // ----- codes that no entry has

  /** What an entry made from a dangling code would be: a string that is its own
      prefix, in a dictionary that is no longer well formed. */
  lemma OwnPrefix(s: Decoder, limit: nat, c: u8)
    requires DecoderOk(s, limit) && Dangling(s)
    ensures var d := s.dict + [Entry(s.prev, c)];
      MaxEnt(d) == s.prev && !WellFormed(d)
  {
    var d := s.dict + [Entry(s.prev, c)];
    assert d[..|s.dict|] == s.dict;
  }

  /** The bits go on with a complete code that is neither CLEAR, nor rejected, nor too
      long; the length of a code that no entry has is not looked at. */
  ghost predicate Continues(s: Decoder, bits: seq<bool>, limit: nat, mru: nat)
    requires WellFormed(s.dict)
  {
    |bits| >= s.width &&
    var code := Num(bits[..s.width]);
    && code != CLEAR && !Rejected(s, code, limit)
    && (code <= MaxEnt(s.dict) ==>
          |s.out| + |Expand(s.dict, code)| <= mru + 1 && |Expand(s.dict, code)| <= CLUSTER)
  }

  /** The bits start with codes that lead to s1 and a code two above the largest there,
      and go on after it. */
  ghost predicate Astray(s: Decoder, bits: seq<bool>, codes: seq<Code>, s1: Decoder, code: Code, tail: seq<bool>,
                         limit: nat, mru: nat) {
    && bits == CodeBits(codes) + BitsOf(code.value, code.width) + tail
    && Follows(s, codes, s1, limit, mru)
    && Takes(s1, code, limit, mru) && code.value == MaxEnt(s1.dict) + 2
    && DecoderOk(Accept(s1, code.value, limit), limit)
    && Continues(Accept(s1, code.value, limit), tail, limit, mru)
  }

  ghost predicate GoesAstray(s: Decoder, bits: seq<bool>, limit: nat, mru: nat) {
    exists codes, s1, code, tail :: Astray(s, bits, codes, s1, code, tail, limit, mru)
  }

  /** The run from s is undefined; used where Deeper is mentioned. */
  ghost predicate Strays(s: Decoder, bits: seq<bool>, limit: nat, mru: nat, maxbits: nat) {
    forall n: nat {:trigger Deeper(n)} :: Deeper(n) ==>
      limit == MaxCode(maxbits) && DecoderOk(s, limit) && Decode(s, bits, limit, mru, maxbits).outcome == Undefined
  }

  /** The codes that lead there, from an undefined outcome. */
  lemma {:induction false} FindAstray(s: Decoder, bits: seq<bool>, limit: nat, mru: nat, maxbits: nat)
      returns (codes: seq<Code>, s1: Decoder, code: Code, tail: seq<bool>)
    requires Strays(s, bits, limit, mru, maxbits) && !Dangling(s)
    ensures Astray(s, bits, codes, s1, code, tail, limit, mru)
    decreases |bits|
  {
    var first, rest, s' := StrayStep(s, bits, limit, mru, maxbits);
    if Dangling(s') {
      codes, s1, code, tail := [], s, first, rest;
      AstrayNow(s, bits, first, rest, limit, mru, maxbits);
    } else {
      codes, s1, code, tail := FindAstray(s', rest, limit, mru, maxbits);
      AstrayCons(s, first, rest, codes, s1, code, tail, limit, mru);
      codes := [first] + codes;
    }
  }

  lemma StrayStep(s: Decoder, bits: seq<bool>, limit: nat, mru: nat, maxbits: nat)
      returns (first: Code, rest: seq<bool>, s': Decoder)
    requires Strays(s, bits, limit, mru, maxbits) && !Dangling(s)
    ensures bits == BitsOf(first.value, first.width) + rest && Takes(s, first, limit, mru) && |rest| < |bits|
    ensures s' == Accept(s, first.value, limit) && Strays(s', rest, limit, mru, maxbits)
  {
    assert Deeper(0);
    first, rest := Code(Num(bits[..s.width]), s.width), bits[s.width..];
    BitsOfNum(bits[..s.width]);
    NumBound(bits[..s.width]);
    assert bits == bits[..s.width] + rest;
    AcceptOk(s, first.value, limit, maxbits);
    s' := Accept(s, first.value, limit);
  }

  lemma AstrayNow(s: Decoder, bits: seq<bool>, first: Code, rest: seq<bool>, limit: nat, mru: nat, maxbits: nat)
    requires bits == BitsOf(first.value, first.width) + rest && Takes(s, first, limit, mru)
    requires var s' := Accept(s, first.value, limit); Dangling(s') && Strays(s', rest, limit, mru, maxbits)
    ensures Astray(s, bits, [], s, first, rest, limit, mru)
  {
    assert Deeper(0);
    DanglingContinues(Accept(s, first.value, limit), rest, limit, mru, maxbits);
    assert CodeBits([]) + BitsOf(first.value, first.width) + rest == bits;
  }

  lemma DanglingContinues(s: Decoder, bits: seq<bool>, limit: nat, mru: nat, maxbits: nat)
    requires limit == MaxCode(maxbits) && DecoderOk(s, limit) && Dangling(s)
    ensures Decode(s, bits, limit, mru, maxbits).outcome == Undefined <==> Continues(s, bits, limit, mru)
    ensures Continues(s, bits, limit, mru) ==> Decode(s, bits, limit, mru, maxbits).state == s
  {
  }

  lemma AstrayCons(s: Decoder, first: Code, rest: seq<bool>, codes: seq<Code>, s1: Decoder, code: Code, tail: seq<bool>,
                   limit: nat, mru: nat)
    requires Takes(s, first, limit, mru)
    requires Astray(Accept(s, first.value, limit), rest, codes, s1, code, tail, limit, mru)
    ensures Astray(s, BitsOf(first.value, first.width) + rest, [first] + codes, s1, code, tail, limit, mru)
  {
    FollowsCons(s, first, codes, s1, limit, mru);
    CodeBitsCons(first, codes);
    assert BitsOf(first.value, first.width) + rest
        == CodeBits([first] + codes) + BitsOf(code.value, code.width) + tail;
  }

  /** What happens to a packet is undefined exactly if it goes on after a code two
      above the largest at its place. */
  lemma UndefinedIff(s: Decoder, bits: seq<bool>, limit: nat, mru: nat, maxbits: nat)
    requires limit == MaxCode(maxbits) && DecoderOk(s, limit) && !Dangling(s)
    ensures Decode(s, bits, limit, mru, maxbits).outcome == Undefined <==> GoesAstray(s, bits, limit, mru)
  {
    if Decode(s, bits, limit, mru, maxbits).outcome == Undefined {
      var codes, s1, code, tail := FindAstray(s, bits, limit, mru, maxbits);
    }
    forall codes, s1, code, tail | Astray(s, bits, codes, s1, code, tail, limit, mru)
      ensures Decode(s, bits, limit, mru, maxbits).outcome == Undefined
    {
      AstrayUndefined(s, bits, codes, s1, code, tail, limit, mru, maxbits);
    }
  }

  lemma AstrayUndefined(s: Decoder, bits: seq<bool>, codes: seq<Code>, s1: Decoder, code: Code, tail: seq<bool>,
                        limit: nat, mru: nat, maxbits: nat)
    requires limit == MaxCode(maxbits) && DecoderOk(s, limit)
    requires Astray(s, bits, codes, s1, code, tail, limit, mru)
    ensures var r := Decode(s, bits, limit, mru, maxbits);
      r == Decoded(Undefined, Accept(s1, code.value, limit)) && Dangling(r.state)
  {
    assert bits == CodeBits(codes) + (BitsOf(code.value, code.width) + tail);
    DecodeFollows(s, codes, s1, BitsOf(code.value, code.width) + tail, limit, mru, maxbits);
    DecodeCode(s1, code, tail, limit, mru, maxbits);
    DanglingContinues(Accept(s1, code.value, limit), tail, limit, mru, maxbits);
  }

  // ----- what compression keeps

  ghost predicate CodesFit(codes: seq<Code>) {
    forall i :: 0 <= i < |codes| ==>
      codes[i].value != CLEAR && codes[i].value < Pow2(codes[i].width) && codes[i].width >= 9
  }

  lemma EnterKeeps(d: seq<Entry>, width: nat, e: Entry, limit: nat, maxbits: nat)
    requires limit == MaxCode(maxbits)
    requires WellFormed(d) && IsCode(d, e.prefix) && WidthOk(d, width, limit)
    ensures var (d', w') := Enter(d, width, e, limit);
      WellFormed(d') && d <= d' && WidthOk(d', w', limit)
  {
    if MaxEnt(d) < limit {
      WellFormedSnoc(d, e);
      if MaxEnt(d) >= MaxCode(width) {
        MaxCodeWiden(width, limit, maxbits);
      }
    }
  }

  /** Compression only ever adds to the dictionary, keeps it well formed, and
      emits codes that fit the width they are emitted with. */
  lemma {:induction false} EncodeKeeps(d: seq<Entry>, width: nat, ent: nat, data: seq<u8>, limit: nat, maxbits: nat)
    requires limit == MaxCode(maxbits)
    requires WellFormed(d) && IsCode(d, ent) && WidthOk(d, width, limit)
    ensures var e := Encode(d, width, ent, data, limit);
      WellFormed(e.dict) && d <= e.dict && WidthOk(e.dict, e.width, limit) && CodesFit(e.codes)
    decreases |data|
  {
    if data != [] {
      var c := data[0];
      match Lookup(d, Entry(ent, c))
      case Some(code) =>
        EncodeKeeps(d, width, code, data[1..], limit, maxbits);
      case None =>
        var (d1, w1) := Enter(d, width, Entry(ent, c), limit);
        EnterKeeps(d, width, Entry(ent, c), limit, maxbits);
        EncodeKeeps(d1, w1, c, data[1..], limit, maxbits);
    }
  }

  /** The compressor never enters a string twice. */
  lemma {:induction false} EncodeDistinct(d: seq<Entry>, width: nat, ent: nat, data: seq<u8>, limit: nat)
    requires Distinct(d)
    ensures Distinct(Encode(d, width, ent, data, limit).dict)
    decreases |data|
  {
    if data != [] {
      var c := data[0];
      match Lookup(d, Entry(ent, c))
      case Some(code) =>
        EncodeDistinct(d, width, code, data[1..], limit);
      case None =>
        LookupFinds(d, Entry(ent, c));
        var (d1, w1) := Enter(d, width, Entry(ent, c), limit);
        EncodeDistinct(d1, w1, c, data[1..], limit);
    }
  }
}
