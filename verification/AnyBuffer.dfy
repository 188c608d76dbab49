/** ANY_ber.c: the growing buffer behind ANY_fromType. */
module AnyBuffer {
  import opened Bits

  // ----- sizes -----

  /** Octets stored, capacity, octets moved by reallocation so far, number of reallocations. */
  datatype Sizes = Sizes(offset: nat, size: nat, recopied: nat, grows: nat)

  const EMPTY := Sizes(0, 0, 0, 0)

  predicate MustGrow(b: Sizes, n: nat) {
    b.offset + n >= b.size
  }

  /** Storing a chunk of n octets. */
  function Stored(b: Sizes, n: nat): Sizes {
    if MustGrow(b, n) then
      Sizes(b.offset + n, (if b.size != 0 then 4 * b.size else 16) + n, b.recopied + b.size, b.grows + 1)
    else b.(offset := b.offset + n)
  }

  function StoredAll(ns: seq<nat>): Sizes {
    if ns == [] then EMPTY else Stored(StoredAll(ns[..|ns| - 1]), ns[|ns| - 1])
  }

  function Total(ns: seq<nat>): nat {
    if ns == [] then 0 else Total(ns[..|ns| - 1]) + ns[|ns| - 1]
  }

  /** What every run keeps. */
  predicate Bounded(b: Sizes) {
    && (b.size == 0 ==> b == EMPTY)
    && (b.size > 0 ==> b.offset < b.size && b.grows > 0)
    && b.size <= 5 * b.offset + 16
    && 3 * b.recopied <= b.size
    && (b.grows > 0 ==> Pow2(2 * b.grows + 2) <= b.size)
  }

  lemma BoundedKept(b: Sizes, n: nat)
    requires Bounded(b)
    ensures Bounded(Stored(b, n)) && Stored(b, n).size > 0
  {
    hide Pow2;
    QuadruplePower(2 * b.grows + 2);
    SmallPower();
  }

  lemma QuadruplePower(k: nat)
    ensures Pow2(k + 2) == 4 * Pow2(k)
  {
    assert Pow2(k + 2) == 2 * Pow2(k + 1);
  }

  lemma SmallPower()
    ensures Pow2(4) == 16
  {
    QuadruplePower(0);
    QuadruplePower(2);
  }

  /**
   * Geometric growth: after any chunks the total is stored below the capacity, the
   * capacity is at most five times the total plus 16, reallocation has moved at
   * most a third of it, and the number of reallocations is logarithmic in it.
   */
  lemma {:induction false} GrowthAmortised(ns: seq<nat>)
    ensures var b := StoredAll(ns);
            && b.offset == Total(ns)
            && (ns != [] ==> b.offset < b.size)
            && b.size <= 5 * Total(ns) + 16
            && 3 * b.recopied <= b.size
            && (b.grows > 0 ==> Pow2(2 * b.grows + 2) <= 5 * Total(ns) + 16)
            && Bounded(b)
  {
    if ns != [] {
      GrowthAmortised(ns[..|ns| - 1]);
      BoundedKept(StoredAll(ns[..|ns| - 1]), ns[|ns| - 1]);
    }
  }

  // ----- contents -----

  function Flatten(chunks: seq<seq<byte>>): seq<byte> {
    if chunks == [] then [] else Flatten(chunks[..|chunks| - 1]) + chunks[|chunks| - 1]
  }

  function Lengths(chunks: seq<seq<byte>>): (ns: seq<nat>)
    ensures |ns| == |chunks|
  {
    seq(|chunks|, i requires 0 <= i < |chunks| => |chunks[i]|)
  }

  /** struct _callback_arg. */
  class CallbackArg {
    var buffer: array?<byte>
    var offset: nat
    var size: nat
    ghost var recopied: nat
    ghost var grows: nat

    ghost function State(): Sizes
      reads this
    {
      Sizes(offset, size, recopied, grows)
    }

    ghost predicate Valid()
      reads this
    {
      && Bounded(State())
      && (if size == 0 then buffer == null else buffer != null && buffer.Length == size)
    }

    ghost function Contents(): seq<byte>
      requires Valid()
      reads this, buffer
    {
      if buffer == null then [] else buffer[..offset]
    }

    constructor ()
      ensures Valid() && Contents() == [] && State() == EMPTY && buffer == null
    {
      buffer, offset, size, recopied, grows := null, 0, 0, 0, 0;
    }

    /** realloc to a larger block: the old octets move. */
    method Realloc(nsize: nat)
      requires Valid() && nsize > size
      modifies this
      ensures buffer != null && fresh(buffer) && buffer.Length == size == nsize
      ensures offset == old(offset) && recopied == old(recopied) + old(size) && grows == old(grows) + 1
      ensures buffer[..offset] == old(Contents())
    {
      var p := new byte[nsize](_ => 0);
      if buffer != null {
        forall i | 0 <= i < size {
          p[i] := buffer[i];
        }
      }
      recopied, grows := recopied + size, grows + 1;
      buffer, size := p, nsize;
    }

    /** ANY__consume_bytes; memory tells whether realloc succeeds, if it is needed. */
    method ConsumeBytes(chunk: seq<byte>, memory: bool) returns (rc: int)
      requires Valid()
      modifies this, buffer
      ensures Valid() && (buffer != old(buffer) ==> fresh(buffer))
      ensures rc == (if old(offset) + |chunk| >= old(size) && !memory then -1 else 0)
      ensures rc == 0 ==> offset == old(offset) + |chunk|
                          && size == if old(offset) + |chunk| < old(size) then old(size)
                                     else (if old(size) != 0 then 4 * old(size) else 16) + |chunk|
      ensures rc == 0 ==> Contents() == old(Contents()) + chunk && State() == Stored(old(State()), |chunk|)
      ensures rc != 0 ==> Contents() == old(Contents()) && State() == old(State())
    {
      hide Pow2;
      BoundedKept(State(), |chunk|);
      if offset + |chunk| >= size {
        if !memory {
          return -1;
        }
        Realloc((if size != 0 then 4 * size else 16) + |chunk|);
      }
      Copy(chunk);
      rc := 0;
    }

    /** memcpy into the free part of the buffer. */
    method Copy(chunk: seq<byte>)
      requires buffer != null && buffer.Length == size && offset + |chunk| <= size
      modifies this`offset, buffer
      ensures offset == old(offset) + |chunk| && buffer[..offset] == old(buffer[..offset]) + chunk
    {
      forall i | 0 <= i < |chunk| {
        buffer[offset + i] := chunk[i];
      }
      offset := offset + |chunk|;
    }
  }

  lemma NoChunks()
    ensures Flatten([]) == [] && StoredAll([]) == EMPTY
  {
  }

  lemma OneMore(chunks: seq<seq<byte>>, i: nat)
    requires i < |chunks|
    ensures Flatten(chunks[..i + 1]) == Flatten(chunks[..i]) + chunks[i]
    ensures StoredAll(Lengths(chunks)[..i + 1]) == Stored(StoredAll(Lengths(chunks)[..i]), |chunks[i]|)
  {
    assert chunks[..i + 1][..i] == chunks[..i];
    assert Lengths(chunks)[..i + 1][..i] == Lengths(chunks)[..i];
  }

  /** Chunk i fits the buffer the earlier ones left, or the buffer can grow. */
  predicate HasRoom(chunks: seq<seq<byte>>, memory: seq<bool>, i: nat)
    requires i < |chunks| == |memory|
  {
    MustGrow(StoredAll(Lengths(chunks)[..i]), |chunks[i]|) ==> memory[i]
  }

  /**
   * ANY_fromType: the DER encoder hands out chunks, memory[i] telling whether a
   * reallocation for chunk i would succeed; -1 as soon as one fails.
   */
  method FromType(chunks: seq<seq<byte>>, memory: seq<bool>) returns (rc: int, buf: seq<byte>, ghost b: Sizes)
    requires |memory| == |chunks|
    ensures rc == 0 || rc == -1
    ensures rc == 0 ==> buf == Flatten(chunks) && b == StoredAll(Lengths(chunks)) && Bounded(b)
    ensures rc == 0 <==> forall i :: 0 <= i < |chunks| ==> HasRoom(chunks, memory, i)
  {
    hide Flatten, StoredAll, Stored, Lengths;
    NoChunks();
    var arg := new CallbackArg();
    assert chunks[..0] == [];
    assert Lengths(chunks)[..0] == [];
    rc, buf, b := 0, [], EMPTY;
    for i := 0 to |chunks|
      invariant arg.Valid() && fresh(arg) && (arg.buffer != null ==> fresh(arg.buffer))
      invariant forall j :: 0 <= j < i ==> HasRoom(chunks, memory, j)
      invariant arg.Contents() == Flatten(chunks[..i]) && arg.State() == StoredAll(Lengths(chunks)[..i])
    {
      var failed := arg.ConsumeBytes(chunks[i], memory[i]);
      if failed != 0 {
        assert !HasRoom(chunks, memory, i);
        return -1, [], arg.State();
      }
      OneMore(chunks, i);
    }
    assert chunks[..|chunks|] == chunks && Lengths(chunks)[..|chunks|] == Lengths(chunks);
    b := arg.State();
    buf := if arg.buffer == null then [] else arg.buffer[..arg.offset];
  }

  lemma {:induction false} FlattenLength(chunks: seq<seq<byte>>)
    ensures |Flatten(chunks)| == Total(Lengths(chunks)) == StoredAll(Lengths(chunks)).offset
  {
    GrowthAmortised(Lengths(chunks));
    if chunks != [] {
      FlattenLength(chunks[..|chunks| - 1]);
      assert Lengths(chunks)[..|chunks| - 1] == Lengths(chunks[..|chunks| - 1]);
    }
  }
}
