/** Packet buffers: a packet is a chain of byte strings, any of which may be empty. */
module Mbufs {
  import opened Bits

  type Chain = seq<seq<u8>>

  /** The bytes of the buffers from number i on. */
  function Tail(chain: Chain, i: nat): seq<u8>
    decreases |chain| - i
  {
    if i >= |chain| then [] else chain[i] + Tail(chain, i + 1)
  }

  function Flatten(chain: Chain): seq<u8> {
    Tail(chain, 0)
  }

  /** The bytes from offset off of buffer number i on. */
  function Rest(chain: Chain, i: nat, off: nat): seq<u8>
    requires i < |chain| && off <= |chain[i]|
  {
    chain[i][off..] + Tail(chain, i + 1)
  }

  lemma RestByte(chain: Chain, i: nat, off: nat)
    requires i < |chain| && off < |chain[i]|
    ensures Rest(chain, i, off) != [] && Rest(chain, i, off)[0] == chain[i][off]
    ensures Rest(chain, i, off)[1..] == Rest(chain, i, off + 1)
  {
    var tail, buf := Tail(chain, i + 1), chain[i][off..];
    assert buf[1..] == chain[i][off + 1..];
    assert (buf + tail)[1..] == buf[1..] + tail;
  }

  lemma RestNext(chain: Chain, i: nat)
    requires i < |chain|
    ensures Rest(chain, i, |chain[i]|) == Tail(chain, i + 1)
  {
    assert chain[i][|chain[i]|..] == [];
  }

  lemma RestStart(chain: Chain, i: nat)
    requires i < |chain|
    ensures Rest(chain, i, 0) == Tail(chain, i)
  {
    assert chain[i][0..] == chain[i];
  }

  lemma RestFlatten(chain: Chain, off: nat)
    requires |chain| >= 1 && off <= |chain[0]|
    ensures Rest(chain, 0, off) == Flatten(chain)[off..]
  {
    var tail, buf := Tail(chain, 1), chain[0];
    assert (buf + tail)[off..] == buf[off..] + tail;
  }
}
