/** How a packet ends at the decompressor: every packet is a run of codes that are read
    without complaint, and then what is left of it decides. */
module LzwEnds {
  import opened Bits
  import opened Lzw
  import opened Options

  /** How many bytes a code stands for, if it is one; one more than the previous code's
      for a code that no entry has yet. */
  ghost predicate Stands(s: Decoder, code: nat, n: nat) {
    && WellFormed(s.dict)
    && (if code > 256 + |s.dict| then IsCode(s.dict, s.prev) && n == |Expand(s.dict, s.prev)| + 1
        else IsCode(s.dict, code) && n == |Expand(s.dict, code)|)
  }

  /** The reader at s is done with what is left of a packet: too few bits for a code; a
      CLEAR, which only padding may follow; a code more than two above the largest, above
      the code size, or above the largest at the start of a packet; a string that makes
      the packet longer than the unit size and its protocol byte, or does not fit a
      buffer; and a code after one that no entry has. */
  ghost predicate EndsWith(s: Decoder, rest: seq<bool>, limit: nat, mru: nat, o: Outcome) {
    var top := 256 + |s.dict|;
    if |rest| < s.width then o == Finished
    else
      var code := Num(rest[..s.width]);
      if code == 256 then o == if |rest| < s.width + 8 then Cleared else Fatal
      else if code > top + 2 || code > limit || (code > top && s.prev == 256) then o == Fatal
      else if s.prev > top && code > top then o == Undefined
      else exists n :: Stands(s, code, n) && TooMuch(s, n, mru, o)
  }

  ghost predicate TooMuch(s: Decoder, n: nat, mru: nat, o: Outcome) {
    if |s.out| + n > mru + 1 then o == Fatal
    else if n > 2048 then o == TooLong
    else o == Undefined && s.prev > 256 + |s.dict|
  }

  lemma EndsHere(s: Decoder, bits: seq<bool>, limit: nat, mru: nat, maxbits: nat)
    requires limit == MaxCode(maxbits) && DecoderOk(s, limit)
    requires |bits| < s.width || Num(bits[..s.width]) == CLEAR || Verdict(s, Num(bits[..s.width]), limit, mru).Some?
    ensures var r := Decode(s, bits, limit, mru, maxbits); r.state == s && EndsWith(s, bits, limit, mru, r.outcome)
  {
    if |bits| >= s.width && Num(bits[..s.width]) != CLEAR {
      var code := Num(bits[..s.width]);
      if !Rejected(s, code, limit) && !(Dangling(s) && code > MaxEnt(s.dict)) {
        var n := |CodeString(s, code)|;
        assert Stands(s, code, n) && TooMuch(s, n, mru, Verdict(s, code, limit, mru).value);
      }
    }
  }

  /** Every packet, from every state of the reader. */
  lemma {:induction false} DecodeEnds(s: Decoder, bits: seq<bool>, limit: nat, mru: nat, maxbits: nat)
      returns (codes: seq<Code>, rest: seq<bool>)
    requires limit == MaxCode(maxbits) && DecoderOk(s, limit)
    ensures var r := Decode(s, bits, limit, mru, maxbits);
      && bits == CodeBits(codes) + rest && Follows(s, codes, r.state, limit, mru)
      && EndsWith(r.state, rest, limit, mru, r.outcome)
    decreases |bits|
  {
    codes, rest := [], bits;
    if |bits| < s.width || Num(bits[..s.width]) == CLEAR || Verdict(s, Num(bits[..s.width]), limit, mru).Some? {
      EndsHere(s, bits, limit, mru, maxbits);
      assert CodeBits([]) + bits == bits;
    } else {
      var first := Code(Num(bits[..s.width]), s.width);
      AcceptOk(s, first.value, limit, maxbits);
      var more;
      more, rest := DecodeEnds(Accept(s, first.value, limit), bits[s.width..], limit, mru, maxbits);
      codes := [first] + more;
      FirstCode(s, bits, first, more, rest, Decode(s, bits, limit, mru, maxbits).state, limit, mru, maxbits);
    }
  }

  lemma FirstCode(s: Decoder, bits: seq<bool>, first: Code, more: seq<Code>, rest: seq<bool>, s': Decoder, limit: nat, mru: nat, maxbits: nat)
    requires DecoderOk(s, limit) && s.width <= |bits| && first == Code(Num(bits[..s.width]), s.width) && first.value != CLEAR
    requires Verdict(s, first.value, limit, mru).None?
    requires bits[s.width..] == CodeBits(more) + rest && Follows(Accept(s, first.value, limit), more, s', limit, mru)
    ensures bits == CodeBits([first] + more) + rest && Follows(s, [first] + more, s', limit, mru)
  {
    NumBound(bits[..s.width]);
    FirstBits(bits, s.width, more, rest);
    FollowsCons(s, first, more, s', limit, mru);
  }

  lemma FirstBits(bits: seq<bool>, width: nat, more: seq<Code>, rest: seq<bool>)
    requires width <= |bits| && bits[width..] == CodeBits(more) + rest
    ensures bits == CodeBits([Code(Num(bits[..width]), width)] + more) + rest
  {
    var w := bits[..width];
    BitsOfNum(w);
    CodeBitsCons(Code(Num(w), width), more);
    assert bits == w + bits[width..];
  }

  /** What was written never exceeds the unit size and the protocol byte. */
  lemma {:induction false} NeverLonger(s: Decoder, bits: seq<bool>, limit: nat, mru: nat, maxbits: nat)
    requires limit == MaxCode(maxbits) && DecoderOk(s, limit) && |s.out| <= mru + 1
    ensures |Decode(s, bits, limit, mru, maxbits).state.out| <= mru + 1
    decreases |bits|
  {
    if |bits| >= s.width {
      var code := Num(bits[..s.width]);
      if code != CLEAR && Verdict(s, code, limit, mru).None? {
        AcceptOk(s, code, limit, maxbits);
        NeverLonger(Accept(s, code, limit), bits[s.width..], limit, mru, maxbits);
      }
    }
  }
}
