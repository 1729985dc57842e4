/** The packet buffers of a capture descriptor: one being filled, one being read or
    kept in reserve, and their rotation. */
module Capture {
  import opened Bits
  import opened CaptureFormat

  /** The result of a read: the wrong size asked for, nothing to return, or a buffer. */
  datatype Outcome = Invalid | Nothing | Data(bytes: seq<u8>)

  function Least(a: nat, b: nat): nat {
    if a < b then a else b
  }

  method PutBytes(a: array<u8>, pos: nat, bytes: seq<u8>)
    requires pos + |bytes| <= a.Length
    modifies a
    ensures a[..][pos..pos + |bytes|] == bytes
    ensures forall k :: 0 <= k < a.Length && !(pos <= k < pos + |bytes|) ==> a[k] == old(a[k])
  {
    var k := 0;
    while k < |bytes|
      invariant 0 <= k <= |bytes|
      invariant forall j :: 0 <= j < k ==> a[pos + j] == bytes[j]
      invariant forall j :: 0 <= j < a.Length && !(pos <= j < pos + |bytes|) ==> a[j] == old(a[j])
    {
      a[pos + k] := bytes[k];
      k := k + 1;
    }
  }

  /** Write a record at pos. */
  method PutRecord(a: array<u8>, pos: nat, f: Form, r: Record)
    requires FormOk(f) && pos + f.hdr + |r.data| <= a.Length && Encodable(f, r)
    modifies a
    ensures RecordAt(a[..], pos, f, r)
    ensures forall k :: 0 <= k < pos ==> a[k] == old(a[k])
  {
    var header := Header(f, r);
    PutBytes(a, pos, header);
    ghost var written := a[..];
    PutBytes(a, pos + f.hdr, r.data);
    assert a[..][pos..pos + |header|] == written[pos..pos + |header|];
    HeaderWritten(a[..], pos, f, r);
  }

  /** Write a record behind those a buffer holds. */
  method AppendRecord(a: array<u8>, len: nat, cur: nat, f: Form, ghost recs: seq<Record>, r: Record)
    requires FormOk(f) && Filled(a[..], f, recs, len) && cur == Align(len, f.word)
    requires cur + f.hdr + |r.data| <= a.Length && Encodable(f, r)
    modifies a
    ensures Filled(a[..], f, recs + [r], cur + f.hdr + |r.data|)
  {
    ghost var before := a[..];
    PutRecord(a, cur, f, r);
    FilledMore(before, a[..], f, recs, len, r, cur);
  }

  class Descriptor {
    const form: Form
    const size: nat
    /** The buffer being filled; the one full and not yet read; the one in reserve. */
    var store: array<u8>
    var hold: array?<u8>
    var free: array?<u8>
    var storeLen: nat
    var holdLen: nat
    var captured: nat
    var dropped: nat
    /** What the buffers hold and what was read, since the last reset. */
    ghost var stored: seq<Record>
    ghost var held: seq<Record>
    ghost var delivered: seq<Record>

    ghost function Accepted(): seq<Record>
      reads this
    {
      delivered + held + stored
    }

    /** The store buffer is there, and exactly one of the others. */
    ghost predicate Slots()
      reads this
    {
      && store.Length == size
      && ((hold == null) != (free == null))
      && (hold != null ==> hold.Length == size && hold != store)
      && (free != null ==> free.Length == size && free != store)
    }

    ghost predicate Valid()
      reads this, store, hold
    {
      && FormOk(form) && form.hdr < Limit(2) && form.hdr <= size && Slots()
      && Filled(store[..], form, stored, storeLen)
      && (hold == null ==> held == [] && holdLen == 0)
      && (hold != null ==> held != [] && Filled(hold[..], form, held, holdLen))
      && captured == |Accepted()| + dropped
    }

    constructor (link: nat, word: nat, bytes: nat)
      requires (word == 8 || word == 4) && HeaderLength(link, word) < Limit(2)
      requires HeaderLength(link, word) <= bytes
      ensures Valid() && form == Form(word, HeaderLength(link, word)) && size == bytes
      ensures Accepted() == [] && captured == 0 && dropped == 0
    {
      HeaderLengthOk(link, word);
      form := Form(word, HeaderLength(link, word));
      size := bytes;
      store := new u8[bytes](_ => 0);
      free := new u8[bytes](_ => 0);
      hold := null;
      storeLen, holdLen, captured, dropped := 0, 0, 0, 0;
      stored, held, delivered := [], [], [];
      new;
      FilledNone(store[..], form);
      assert Limit(2) == 0x1_0000;
    }

    /** The store buffer becomes the one to read, the reserve the one to fill. */
    method Rotate()
      requires Valid() && free != null && stored != []
      modifies this
      ensures Valid() && store == old(free) && hold == old(store) && free == null && storeLen == 0
      ensures stored == [] && held == old(stored) && delivered == old(delivered)
      ensures captured == old(captured) && dropped == old(dropped)
    {
      hold, holdLen := store, storeLen;
      store, storeLen := free, 0;
      free := null;
      FilledNone(store[..], form);
      held, stored := stored, [];
    }

    /** How much of a packet is kept: all of it, as much as is asked for, or as much as
        the buffer has room for behind a header; none of these is exceeded. */
    function Kept(pktLen: nat, snap: nat): (n: nat)
      requires form.hdr <= size
      ensures n <= pktLen && n <= snap && form.hdr + n <= size
      ensures n == pktLen || n == snap || form.hdr + n == size
    {
      Least(Least(snap, pktLen), size - form.hdr)
    }

    /** Store a packet, cut to the snapshot length and the buffer; it is dropped only if
        it does not fit and there is no buffer in reserve. */
    method Catch(pkt: seq<u8>, snap: nat, sec: nat, usec: nat)
      requires Valid() && |pkt| < Limit(4) && sec < Limit(form.word) && usec < Limit(form.word)
      modifies this, store, free
      ensures Valid() && captured == old(captured) + 1
      ensures var fits := Align(old(storeLen), form.word) + form.hdr + Kept(|pkt|, snap) <= size;
        if !fits && old(free) == null then
          dropped == old(dropped) + 1 && Accepted() == old(Accepted())
        else
          dropped == old(dropped) && Accepted() == old(Accepted()) + [Record(sec, usec, |pkt|, pkt[..Kept(|pkt|, snap)])]
    {
      var cap := Kept(|pkt|, snap);
      var cur := Align(storeLen, form.word);
      if cur + form.hdr + cap > size {
        if free == null {
          captured, dropped := captured + 1, dropped + 1;
          return;
        }
        FilledLength(store[..], form, stored, storeLen);
        Rotate();
        cur := 0;
      }
      var r := Record(sec, usec, |pkt|, pkt[..cap]);
      Append(cur, r);
      assert Accepted() == old(Accepted()) + [r];
    }

    method Append(cur: nat, r: Record)
      requires Valid() && cur == Align(storeLen, form.word) && cur + form.hdr + |r.data| <= size && Encodable(form, r)
      modifies `storeLen, `captured, `stored, store
      ensures Valid() && captured == old(captured) + 1 && stored == old(stored) + [r]
    {
      AppendRecord(store, storeLen, cur, form, stored, r);
      stored := stored + [r];
      storeLen := cur + form.hdr + |r.data|;
      captured := captured + 1;
    }

    /** Hand over the buffer to read, rotating if there is none and the reader does not
        wait; ready: the reader does not block, wants packets at once, or timed out.
        The bytes handed over hold the next records, and at least one. */
    method Read(ask: nat, ready: bool) returns (o: Outcome, ghost recs: seq<Record>)
      requires Valid()
      modifies this
      ensures Valid() && Accepted() == old(Accepted()) && captured == old(captured) && dropped == old(dropped)
      ensures o.Invalid? <==> ask != size
      ensures o.Nothing? <==> ask == size && old(hold) == null && (!ready || old(storeLen) == 0)
      ensures delivered == old(delivered) + recs && (o.Data? <==> recs != [])
      ensures o.Data? ==> |o.bytes| == Extent(form, recs) && Holds(o.bytes, form, recs)
    {
      recs := [];
      if ask != size {
        return Invalid, [];
      }
      if hold == null {
        if !ready || storeLen == 0 {
          return Nothing, [];
        }
        FilledLength(store[..], form, stored, storeLen);
        Rotate();
      }
      o, recs := HandOver();
    }

    method HandOver() returns (o: Outcome, ghost recs: seq<Record>)
      requires Valid() && hold != null
      modifies this
      ensures Valid() && Accepted() == old(Accepted()) && captured == old(captured) && dropped == old(dropped)
      ensures recs == old(held) && delivered == old(delivered) + recs
      ensures o.Data? && |o.bytes| == Extent(form, recs) && Holds(o.bytes, form, recs)
    {
      FilledPart(hold[..], form, held, holdLen);
      o, recs := Data(hold[..holdLen]), held;
      delivered, held := delivered + held, [];
      free, hold, holdLen := hold, null, 0;
      assert Accepted() == old(Accepted());
    }

    /** Forget all packets and counts. */
    method Reset()
      requires Valid()
      modifies this
      ensures Valid() && Accepted() == [] && captured == 0 && dropped == 0
      ensures hold == null && storeLen == 0 && store == old(store)
      ensures free == if old(hold) != null then old(hold) else old(free)
    {
      if hold != null {
        free, hold := hold, null;
      }
      storeLen, holdLen, captured, dropped := 0, 0, 0, 0;
      stored, held, delivered := [], [], [];
      FilledNone(store[..], form);
    }
  }

  /** What a reader that walks the buffer it gets sees: the next packets, in order. */
  method ReadPackets(d: Descriptor, ready: bool) returns (out: seq<Record>)
    requires d.Valid()
    modifies d
    ensures d.Valid() && d.Accepted() == old(d.Accepted())
    ensures d.delivered == old(d.delivered) + out
    ensures out == [] <==> old(d.hold == null && (!ready || d.storeLen == 0))
  {
    var o, recs := d.Read(d.size, ready);
    if o.Data? {
      out := Walk(o.bytes, d.form, recs);
    } else {
      out := [];
    }
  }
}
