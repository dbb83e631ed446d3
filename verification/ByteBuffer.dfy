/** The ByteBuffer class of ByteBuffer.h: a byte vector with a read and a write cursor. */
module ByteBuffers {
  import opened Bytes
  import opened BufferCodec

  /** append() asserts that the buffer is smaller than this. */
  const LIMIT := 10000000

  /** Writing src at p: over what is there, and beyond the end with a gap filled with zeros. */
  function Overwrite(s: bytes, p: nat, src: bytes): (r: bytes)
    ensures |r| == if src == [] || p + |src| <= |s| then |s| else p + |src|
  {
    if src == [] then s
    else
      var padded := if |s| < p + |src| then s + seq(p + |src| - |s|, _ => 0) else s;
      padded[..p] + src + padded[p + |src|..]
  }

  /** Byte by byte: src where it was written, zeros in a gap, and everything else as before. */
  lemma OverwriteAt(s: bytes, p: nat, src: bytes, i: nat)
    requires i < |Overwrite(s, p, src)|
    ensures Overwrite(s, p, src)[i] ==
            if p <= i < p + |src| then src[i - p] else if i < |s| then s[i] else 0
  {
  }

  lemma OverwriteAtEnd(s: bytes, src: bytes)
    ensures Overwrite(s, |s|, src) == s + src
  {
  }

  /** Two writes in a row are one write of both. */
  lemma OverwriteConcat(s: bytes, p: nat, a: bytes, b: bytes)
    ensures Overwrite(Overwrite(s, p, a), p + |a|, b) == Overwrite(s, p, a + b)
  {
    if a == [] || b == [] {
      assert a == [] ==> a + b == b;
      assert b == [] ==> a + b == a;
    } else {
      OverwriteConcatAt(s, p, a, b);
    }
  }

  lemma OverwriteConcatAt(s: bytes, p: nat, a: bytes, b: bytes)
    requires a != [] && b != []
    ensures Overwrite(Overwrite(s, p, a), p + |a|, b) == Overwrite(s, p, a + b)
  {
    hide Overwrite;
    var s1 := Overwrite(s, p, a);
    var x, y := Overwrite(s1, p + |a|, b), Overwrite(s, p, a + b);
    forall i | 0 <= i < |x|
      ensures x[i] == y[i]
    {
      OverwriteAt(s1, p + |a|, b, i);
      if i < |s1| { OverwriteAt(s, p, a, i); }
      OverwriteAt(s, p, a + b, i);
    }
  }

  // ------------------------------------------------------------------
  // When append() fails its assertion
  // ------------------------------------------------------------------

  /** The size of a storage after n bytes were written at pos. */
  function Grown(size: nat, pos: nat, n: nat): nat {
    if n == 0 || pos + n <= size then size else pos + n
  }

  /**
   n bytes written at pos, in several appends of which the last has last bytes, pass every assertion:
   each append asks for a small enough buffer before it writes, so it is the last one that decides.
   */
  predicate Room(size: nat, pos: nat, n: nat, last: nat) {
    n == 0 || (size < LIMIT && (n == last || pos + n - last < LIMIT))
  }

  lemma RoomSplit(size: nat, pos: nat, a: nat, lastOfA: nat, b: nat, lastOfB: nat)
    requires lastOfA <= a && lastOfB <= b
    ensures Room(size, pos, a + b, if b == 0 then lastOfA else lastOfB) <==>
            Room(size, pos, a, lastOfA) && Room(Grown(size, pos, a), pos + a, b, lastOfB)
  {
  }

  /** How many bytes the last append of a value writes. */
  function Last(v: Val, ty: Ty): (n: nat)
    requires HasType(v, ty)
    ensures 0 < n <= |Encode(v, ty)|
    decreases ty, 2
  {
    match ty
    case TUnsigned(w) => w
    case TSigned(w) => w
    case TBool => 1
    case TString => 1
    case TVector(e) => if v.vs == [] then 4 else LastOfSeq(v.vs, e)
    case TList(e) => if v.vs == [] then 4 else LastOfSeq(v.vs, e)
    case TMap(k, e) => if v.kvs == [] then 4 else LastOfPairs(v.kvs, k, e)
  }

  function LastOfSeq(vs: seq<Val>, e: Ty): (n: nat)
    requires forall i | 0 <= i < |vs| :: HasType(vs[i], e)
    ensures n <= |EncodeSeq(vs, e)| && (vs != [] ==> 0 < n)
    decreases e, 3, |vs|
  {
    if vs == [] then 0 else if |vs| == 1 then Last(vs[0], e) else LastOfSeq(vs[1..], e)
  }

  function LastOfPairs(kvs: seq<Binding>, k: Ty, e: Ty): (n: nat)
    requires BindingsHaveTypes(kvs, k, e)
    ensures n <= |EncodePairs(kvs, k, e)| && (kvs != [] ==> 0 < n)
    decreases TMap(k, e), 1, |kvs|
  {
    if kvs == [] then 0 else if |kvs| == 1 then Last(kvs[0].val, e) else LastOfPairs(kvs[1..], k, e)
  }

  function LastOfAll(vs: seq<Val>, tys: seq<Ty>): (n: nat)
    requires HaveTypes(vs, tys)
    ensures n <= |EncodeAll(vs, tys)| && (vs != [] ==> 0 < n)
  {
    if vs == [] then 0 else if |vs| == 1 then Last(vs[0], tys[0]) else LastOfAll(vs[1..], tys[1..])
  }

  function AppendAll(s: bytes, p: nat, srcs: seq<bytes>): bytes
    decreases |srcs|
  {
    if srcs == [] then s else AppendAll(Overwrite(s, p, srcs[0]), p + |srcs[0]|, srcs[1..])
  }

  function Flatten(srcs: seq<bytes>): bytes {
    if srcs == [] then [] else srcs[0] + Flatten(srcs[1..])
  }

  /** A run of appends, from any cursor, is one append of everything; from a cleared buffer, it is everything. */
  lemma {:induction false} AppendsConcat(s: bytes, p: nat, srcs: seq<bytes>)
    ensures AppendAll(s, p, srcs) == Overwrite(s, p, Flatten(srcs))
    ensures AppendAll([], 0, srcs) == Flatten(srcs)
    decreases |srcs|
  {
    AppendsOnce(s, p, srcs);
    AppendsOnce([], 0, srcs);
    OverwriteAtEnd([], Flatten(srcs));
  }

  lemma {:induction false} AppendsOnce(s: bytes, p: nat, srcs: seq<bytes>)
    ensures AppendAll(s, p, srcs) == Overwrite(s, p, Flatten(srcs))
    decreases |srcs|
  {
    hide Overwrite;
    if srcs == [] {
      OverwriteNothing(s, p);
    } else {
      AppendsOnce(Overwrite(s, p, srcs[0]), p + |srcs[0]|, srcs[1..]);
      OverwriteConcat(s, p, srcs[0], Flatten(srcs[1..]));
    }
  }

  lemma EncodeNotEmpty(v: Val, ty: Ty)
    requires HasType(v, ty)
    ensures Encode(v, ty) != []
  {
  }

  lemma NoPairs(k: Ty, e: Ty)
    ensures BindingsHaveTypes([], k, e) && EncodePairs([], k, e) == []
  {
  }

  lemma PairsHead(kvs: seq<Binding>, k: Ty, e: Ty)
    requires kvs != [] && BindingsHaveTypes(kvs, k, e)
    ensures HasType(kvs[0].key, k) && HasType(kvs[0].val, e) && BindingsHaveTypes(kvs[1..], k, e)
    ensures EncodePairs(kvs, k, e) == Encode(kvs[0].key, k) + Encode(kvs[0].val, e) + EncodePairs(kvs[1..], k, e)
    ensures Encode(kvs[0].key, k) + Encode(kvs[0].val, e) != []
  {
    EncodeNotEmpty(kvs[0].key, k);
  }

  // The first piece of a run of writes, and the rest.

  lemma RoomForSeq(size: nat, pos: nat, vs: seq<Val>, e: Ty)
    requires vs != [] && forall i | 0 <= i < |vs| :: HasType(vs[i], e)
    ensures EncodeSeq(vs, e) == Encode(vs[0], e) + EncodeSeq(vs[1..], e)
    ensures Room(size, pos, |EncodeSeq(vs, e)|, LastOfSeq(vs, e)) <==>
            var n := |Encode(vs[0], e)|;
            && Room(size, pos, n, Last(vs[0], e))
            && Room(Grown(size, pos, n), pos + n, |EncodeSeq(vs[1..], e)|, LastOfSeq(vs[1..], e))
  {
    hide Encode, Last, Room;
    RoomSplit(size, pos, |Encode(vs[0], e)|, Last(vs[0], e), |EncodeSeq(vs[1..], e)|, LastOfSeq(vs[1..], e));
  }

  lemma RoomForPairs(size: nat, pos: nat, kvs: seq<Binding>, k: Ty, e: Ty)
    requires kvs != [] && BindingsHaveTypes(kvs, k, e)
    ensures HasType(kvs[0].key, k) && HasType(kvs[0].val, e) && BindingsHaveTypes(kvs[1..], k, e)
    ensures EncodePairs(kvs, k, e) == Encode(kvs[0].key, k) + Encode(kvs[0].val, e) + EncodePairs(kvs[1..], k, e)
    ensures Room(size, pos, |EncodePairs(kvs, k, e)|, LastOfPairs(kvs, k, e)) <==>
            var n := |Encode(kvs[0].key, k) + Encode(kvs[0].val, e)|;
            && Room(size, pos, n, Last(kvs[0].val, e))
            && Room(Grown(size, pos, n), pos + n, |EncodePairs(kvs[1..], k, e)|, LastOfPairs(kvs[1..], k, e))
  {
    hide Encode, Last, Room, HasType;
    PairsHead(kvs, k, e);
    RoomSplit(size, pos, |Encode(kvs[0].key, k) + Encode(kvs[0].val, e)|, Last(kvs[0].val, e),
              |EncodePairs(kvs[1..], k, e)|, LastOfPairs(kvs[1..], k, e));
  }

  lemma RoomForAll(size: nat, pos: nat, vs: seq<Val>, tys: seq<Ty>)
    requires vs != [] && HaveTypes(vs, tys)
    ensures EncodeAll(vs, tys) == Encode(vs[0], tys[0]) + EncodeAll(vs[1..], tys[1..])
    ensures Room(size, pos, |EncodeAll(vs, tys)|, LastOfAll(vs, tys)) <==>
            var n := |Encode(vs[0], tys[0])|;
            && Room(size, pos, n, Last(vs[0], tys[0]))
            && Room(Grown(size, pos, n), pos + n, |EncodeAll(vs[1..], tys[1..])|, LastOfAll(vs[1..], tys[1..]))
  {
    hide Encode, Last, Room;
    RoomSplit(size, pos, |Encode(vs[0], tys[0])|, Last(vs[0], tys[0]),
              |EncodeAll(vs[1..], tys[1..])|, LastOfAll(vs[1..], tys[1..]));
  }

  /** Reading a string one char at a time. */
  lemma StringStep(r: bytes)
    ensures r == [] ==> DecodeString(r) == Ok([], [])
    ensures r != [] && r[0] == 0 ==> DecodeString(r) == Ok([], r[1..])
    ensures r != [] && r[0] != 0 ==>
              && DecodeString(r).value == [r[0]] + DecodeString(r[1..]).value
              && DecodeString(r).rest == DecodeString(r[1..]).rest
  {
  }

  class ByteBuffer {
    var mReadPos: nat
    var mWritePos: nat
    var mStorage: bytes

    constructor ()
      ensures mStorage == [] && mReadPos == mWritePos == 0
    {
      mReadPos, mWritePos, mStorage := 0, 0, [];
    }

    /** What is still to be read. */
    function Rest(): bytes
      reads this
    {
      if mReadPos <= |mStorage| then mStorage[mReadPos..] else []
    }

    method Clear()
      modifies this
      ensures mStorage == [] && mReadPos == mWritePos == 0
    {
      mStorage := [];
      mReadPos, mWritePos := 0, 0;
    }

    method Resize(n: nat)
      modifies this
      ensures |mStorage| == n && mReadPos == 0 && mWritePos == n
      ensures forall i | 0 <= i < n :: mStorage[i] == if i < old(|mStorage|) then old(mStorage)[i] else 0
    {
      mStorage := if n <= |mStorage| then mStorage[..n] else mStorage + seq(n - |mStorage|, _ => 0);
      mReadPos := 0;
      mWritePos := |mStorage|;
    }

    /** ok is false when the assertion on the size fails. */
    method Append(src: bytes) returns (ok: bool)
      modifies this`mStorage, this`mWritePos
      ensures ok <==> src == [] || old(|mStorage|) < 10000000
      ensures ok ==> mStorage == Overwrite(old(mStorage), old(mWritePos), src) && mWritePos == old(mWritePos) + |src|
      ensures !ok ==> mStorage == old(mStorage) && mWritePos == old(mWritePos)
    {
      if |src| == 0 { return true; }
      if |mStorage| >= LIMIT { return false; }
      if |mStorage| < mWritePos + |src| {
        mStorage := mStorage + seq(mWritePos + |src| - |mStorage|, _ => 0);
      }
      mStorage := mStorage[..mWritePos] + src + mStorage[mWritePos + |src|..];
      mWritePos := mWritePos + |src|;
      ok := true;
    }

    /** A run of appends of any pieces: together they are one append of everything, in order. */
    method AppendEach(srcs: seq<bytes>) returns (ok: bool)
      modifies this`mStorage, this`mWritePos
      ensures old(|mStorage|) < 10000000 && old(mWritePos) + |Flatten(srcs)| <= 10000000 ==> ok
      ensures ok ==>
                && mStorage == Overwrite(old(mStorage), old(mWritePos), Flatten(srcs))
                && mWritePos == old(mWritePos) + |Flatten(srcs)|
    {
      hide Overwrite;
      ghost var goal, end := Overwrite(mStorage, mWritePos, Flatten(srcs)), mWritePos + |Flatten(srcs)|;
      ghost var small := |mStorage| < LIMIT && end <= LIMIT;
      var i := 0;
      assert srcs[0..] == srcs;
      while i < |srcs|
        invariant i <= |srcs|
        invariant Overwrite(mStorage, mWritePos, Flatten(srcs[i..])) == goal && mWritePos + |Flatten(srcs[i..])| == end
        invariant small ==> |mStorage| < LIMIT || |mStorage| == mWritePos
      {
        assert srcs[i..][1..] == srcs[i + 1..];
        OverwriteConcat(mStorage, mWritePos, srcs[i], Flatten(srcs[i + 1..]));
        OverwriteNothing(mStorage, mWritePos);
        ok := Append(srcs[i]);
        if !ok { return; }
        i := i + 1;
      }
      OverwriteNothing(mStorage, mWritePos);
      ok := true;
    }

    method Put(pos: nat, src: bytes)
      requires pos + |src| <= |mStorage|
      modifies this`mStorage
      ensures mStorage == Patch(old(mStorage), pos, src)
    {
      mStorage := mStorage[..pos] + src + mStorage[pos + |src|..];
    }

    // --- writing values --------------------------------------------------

    /** operator<< for a value of any type; ok is false when one of its appends fails its assertion. */
    method Write(v: Val, ty: Ty) returns (ok: bool)
      requires HasType(v, ty)
      modifies this`mStorage, this`mWritePos
      ensures ok <==> Room(old(|mStorage|), old(mWritePos), |Encode(v, ty)|, Last(v, ty))
      ensures ok ==>
                && mStorage == Overwrite(old(mStorage), old(mWritePos), Encode(v, ty))
                && mWritePos == old(mWritePos) + |Encode(v, ty)|
      decreases ty, 2
    {
      hide Overwrite, EncodeSeq, EncodePairs, LastOfSeq, LastOfPairs;
      match ty {
        case TUnsigned(w) => ok := Append(ToLE(v.i, w));
        case TSigned(w) => ok := Append(ToLE(Unsigned(v.i, w), w));
        case TBool => ok := Append([if v.b then 1 else 0]);
        case TString =>
          OverwriteConcat(mStorage, mWritePos, v.s, [0]);
          OverwriteNothing(mStorage, mWritePos);
          ok := Append(v.s);
          if ok { ok := Append([0]); }
        case TVector(e) => ok := WriteSeq(v.vs, e);
        case TList(e) => ok := WriteSeq(v.vs, e);
        case TMap(k, e) => ok := WriteMap(v.kvs, k, e);
      }
    }

    /** The loop over the elements of a vector or list. */
    method WriteElements(vs: seq<Val>, e: Ty) returns (ok: bool)
      requires forall i | 0 <= i < |vs| :: HasType(vs[i], e)
      modifies this`mStorage, this`mWritePos
      ensures ok <==> Room(old(|mStorage|), old(mWritePos), |EncodeSeq(vs, e)|, LastOfSeq(vs, e))
      ensures ok ==>
                && mStorage == Overwrite(old(mStorage), old(mWritePos), EncodeSeq(vs, e))
                && mWritePos == old(mWritePos) + |EncodeSeq(vs, e)|
      decreases e, 3
    {
      hide Overwrite, Encode, Last, Room, EncodeSeq, LastOfSeq, HasType;
      NoSeq(e);
      ghost var goal := Overwrite(mStorage, mWritePos, EncodeSeq(vs, e));
      ghost var end := mWritePos + |EncodeSeq(vs, e)|;
      ghost var room := Room(|mStorage|, mWritePos, |EncodeSeq(vs, e)|, LastOfSeq(vs, e));
      var i := 0;
      assert vs[0..] == vs;
      while i < |vs|
        invariant i <= |vs|
        invariant Overwrite(mStorage, mWritePos, EncodeSeq(vs[i..], e)) == goal
        invariant mWritePos + |EncodeSeq(vs[i..], e)| == end
        invariant Room(|mStorage|, mWritePos, |EncodeSeq(vs[i..], e)|, LastOfSeq(vs[i..], e)) <==> room
      {
        assert vs[i..][0] == vs[i] && vs[i..][1..] == vs[i + 1..];
        RoomForSeq(|mStorage|, mWritePos, vs[i..], e);
        OverwriteConcat(mStorage, mWritePos, Encode(vs[i], e), EncodeSeq(vs[i + 1..], e));
        ok := Write(vs[i], e);
        if !ok { return; }
        i := i + 1;
      }
      assert vs[i..] == [];
      OverwriteNothing(mStorage, mWritePos);
      NoRoomNeeded(|mStorage|, mWritePos);
      ok := true;
    }

    /** A count, then the elements. */
    method WriteSeq(vs: seq<Val>, e: Ty) returns (ok: bool)
      requires |vs| < 0x1_0000_0000 && forall i | 0 <= i < |vs| :: HasType(vs[i], e)
      modifies this`mStorage, this`mWritePos
      ensures ok <==> Room(old(|mStorage|), old(mWritePos), 4 + |EncodeSeq(vs, e)|,
                           if vs == [] then 4 else LastOfSeq(vs, e))
      ensures ok ==>
                && mStorage == Overwrite(old(mStorage), old(mWritePos), ToLE(|vs|, 4) + EncodeSeq(vs, e))
                && mWritePos == old(mWritePos) + 4 + |EncodeSeq(vs, e)|
      decreases e, 4
    {
      hide Overwrite, Encode, ToLE, Room, EncodeSeq, LastOfSeq, HasType;
      NoSeq(e);
      OverwriteConcat(mStorage, mWritePos, ToLE(|vs|, 4), EncodeSeq(vs, e));
      RoomSplit(|mStorage|, mWritePos, 4, 4, |EncodeSeq(vs, e)|, LastOfSeq(vs, e));
      RoomForOne(|mStorage|, mWritePos, 4);
      ok := Append(ToLE(|vs|, 4));
      if ok { ok := WriteElements(vs, e); }
    }

    /** b << iter->first << iter->second */
    method WriteBinding(p: Binding, k: Ty, e: Ty) returns (ok: bool)
      requires HasType(p.key, k) && HasType(p.val, e)
      modifies this`mStorage, this`mWritePos
      ensures ok <==> Room(old(|mStorage|), old(mWritePos), |Encode(p.key, k) + Encode(p.val, e)|, Last(p.val, e))
      ensures ok ==>
                && mStorage == Overwrite(old(mStorage), old(mWritePos), Encode(p.key, k) + Encode(p.val, e))
                && mWritePos == old(mWritePos) + |Encode(p.key, k) + Encode(p.val, e)|
      decreases TMap(k, e), 0
    {
      hide Encode, Last, Room;
      OverwriteConcat(mStorage, mWritePos, Encode(p.key, k), Encode(p.val, e));
      RoomSplit(|mStorage|, mWritePos, |Encode(p.key, k)|, Last(p.key, k), |Encode(p.val, e)|, Last(p.val, e));
      ok := Write(p.key, k);
      if ok { ok := Write(p.val, e); }
    }

    method WriteMap(kvs: seq<Binding>, k: Ty, e: Ty) returns (ok: bool)
      requires |kvs| < 0x1_0000_0000 && BindingsHaveTypes(kvs, k, e)
      modifies this`mStorage, this`mWritePos
      ensures ok <==> Room(old(|mStorage|), old(mWritePos), 4 + |EncodePairs(kvs, k, e)|,
                           if kvs == [] then 4 else LastOfPairs(kvs, k, e))
      ensures ok ==>
                && mStorage == Overwrite(old(mStorage), old(mWritePos), ToLE(|kvs|, 4) + EncodePairs(kvs, k, e))
                && mWritePos == old(mWritePos) + 4 + |EncodePairs(kvs, k, e)|
      decreases TMap(k, e), 1
    {
      hide Overwrite, Encode, ToLE, EncodePairs, BindingsHaveTypes, HasType, Last, LastOfPairs, Room;
      NoPairs(k, e);
      ghost var goal := Overwrite(mStorage, mWritePos, ToLE(|kvs|, 4) + EncodePairs(kvs, k, e));
      ghost var end := mWritePos + 4 + |EncodePairs(kvs, k, e)|;
      ghost var room := Room(|mStorage|, mWritePos, 4 + |EncodePairs(kvs, k, e)|,
                             if kvs == [] then 4 else LastOfPairs(kvs, k, e));
      OverwriteConcat(mStorage, mWritePos, ToLE(|kvs|, 4), EncodePairs(kvs, k, e));
      RoomSplit(|mStorage|, mWritePos, 4, 4, |EncodePairs(kvs, k, e)|, LastOfPairs(kvs, k, e));
      RoomForOne(|mStorage|, mWritePos, 4);
      ok := Append(ToLE(|kvs|, 4));
      if !ok { return; }
      var i := 0;
      assert kvs[0..] == kvs;
      while i < |kvs|
        invariant i <= |kvs| && BindingsHaveTypes(kvs[i..], k, e)
        invariant Overwrite(mStorage, mWritePos, EncodePairs(kvs[i..], k, e)) == goal
        invariant mWritePos + |EncodePairs(kvs[i..], k, e)| == end
        invariant Room(|mStorage|, mWritePos, |EncodePairs(kvs[i..], k, e)|, LastOfPairs(kvs[i..], k, e)) <==> room
      {
        RoomForPairs(|mStorage|, mWritePos, kvs[i..], k, e);
        assert kvs[i..][0] == kvs[i] && kvs[i..][1..] == kvs[i + 1..];
        ghost var more := EncodePairs(kvs[i + 1..], k, e);
        OverwriteConcat(mStorage, mWritePos, Encode(kvs[i].key, k) + Encode(kvs[i].val, e), more);
        ok := WriteBinding(kvs[i], k, e);
        if !ok { return; }
        i := i + 1;
      }
      assert kvs[i..] == [];
      OverwriteNothing(mStorage, mWritePos);
      NoRoomNeeded(|mStorage|, mWritePos);
      ok := true;
    }

    // --- reading values --------------------------------------------------
    // A read past the end fails an assertion, so each read asks that its value decodes.

    method ReadInt(w: nat) returns (u: nat)
      requires mReadPos <= |mStorage| && DecodeInt(Rest(), w).Ok?
      modifies this`mReadPos
      ensures mReadPos <= |mStorage| && u == DecodeInt(old(Rest()), w).value && Rest() == DecodeInt(old(Rest()), w).rest
    {
      u := FromLE(mStorage[mReadPos..mReadPos + w]);
      assert Rest()[..w] == mStorage[mReadPos..mReadPos + w];
      mReadPos := mReadPos + w;
    }

    /** One char at a time, up to a zero byte or the end of the buffer. */
    method ReadString() returns (s: bytes)
      requires mReadPos <= |mStorage|
      modifies this`mReadPos
      ensures mReadPos <= |mStorage|
      ensures s == DecodeString(old(Rest())).value && Rest() == DecodeString(old(Rest())).rest
    {
      hide DecodeString, CString;
      s := [];
      ghost var goal := DecodeString(Rest());
      while mReadPos < |mStorage|
        invariant mReadPos <= |mStorage|
        invariant goal.value == s + DecodeString(Rest()).value && goal.rest == DecodeString(Rest()).rest
      {
        var c := mStorage[mReadPos];
        ghost var r := Rest();
        StringStep(r);
        mReadPos := mReadPos + 1;
        assert r[0] == c && r[1..] == Rest();
        if c == 0 {
          assert s + [] == s;
          return;
        }
        s := s + [c];
      }
      assert Rest() == [] && s + [] == s;
      StringStep([]);
    }

    /** operator>> for a value of any type. */
    method Read(ty: Ty) returns (v: Val)
      requires mReadPos <= |mStorage| && Decode(ty, Rest()).Ok?
      modifies this`mReadPos
      ensures mReadPos <= |mStorage| && v == Decode(ty, old(Rest())).value && Rest() == Decode(ty, old(Rest())).rest
      decreases ty, 2
    {
      hide DecodeInt, DecodeString, DecodeSeq, DecodePairs;
      match ty {
        case TUnsigned(w) =>
          var u := ReadInt(w);
          v := VInt(u);
        case TSigned(w) =>
          var u := ReadInt(w);
          v := VInt(Signed(u, w));
        case TBool =>
          var u := ReadInt(1);
          v := VBool(0 < u < 128);
        case TString =>
          var s := ReadString();
          v := VString(s);
        case TVector(e) =>
          var n := ReadInt(4);
          v := ReadSeq(e, n);
        case TList(e) =>
          var n := ReadInt(4);
          v := ReadSeq(e, n);
        case TMap(k, e) =>
          var n := ReadInt(4);
          v := ReadMap(k, e, n);
      }
    }

    method ReadSeq(e: Ty, count: nat) returns (v: Val)
      requires mReadPos <= |mStorage| && DecodeSeq(e, count, [], Rest()).Ok?
      modifies this`mReadPos
      ensures mReadPos <= |mStorage|
      ensures v == DecodeSeq(e, count, [], old(Rest())).value && Rest() == DecodeSeq(e, count, [], old(Rest())).rest
      decreases e, 3
    {
      hide Decode;
      var n, acc := count, [];
      ghost var goal := DecodeSeq(e, count, [], Rest());
      while n > 0
        invariant mReadPos <= |mStorage| && DecodeSeq(e, n, acc, Rest()) == goal
      {
        var t := Read(e);
        acc := acc + [t];
        n := n - 1;
      }
      v := VSeq(acc);
    }

    method ReadMap(k: Ty, e: Ty, count: nat) returns (v: Val)
      requires mReadPos <= |mStorage| && DecodePairs(k, e, count, [], Rest()).Ok?
      modifies this`mReadPos
      ensures mReadPos <= |mStorage|
      ensures v == DecodePairs(k, e, count, [], old(Rest())).value
      ensures Rest() == DecodePairs(k, e, count, [], old(Rest())).rest
      decreases TMap(k, e), 1
    {
      hide Decode, Insert;
      var n, acc := count, [];
      ghost var goal := DecodePairs(k, e, count, [], Rest());
      while n > 0
        invariant mReadPos <= |mStorage| && DecodePairs(k, e, n, acc, Rest()) == goal
      {
        var key := Read(k);
        var val := Read(e);
        acc := Insert(acc, key, val);
        n := n - 1;
      }
      v := VMap(acc);
    }

    // --- records -----------------------------------------------------------

    /** b << x << y << ... */
    method WriteAll(vs: seq<Val>, tys: seq<Ty>) returns (ok: bool)
      requires HaveTypes(vs, tys)
      modifies this`mStorage, this`mWritePos
      ensures ok <==> Room(old(|mStorage|), old(mWritePos), |EncodeAll(vs, tys)|, LastOfAll(vs, tys))
      ensures ok ==>
                && mStorage == Overwrite(old(mStorage), old(mWritePos), EncodeAll(vs, tys))
                && mWritePos == old(mWritePos) + |EncodeAll(vs, tys)|
    {
      hide Overwrite, Encode, Last, Room, EncodeAll, LastOfAll;
      NoValues();
      ghost var goal := Overwrite(mStorage, mWritePos, EncodeAll(vs, tys));
      ghost var end := mWritePos + |EncodeAll(vs, tys)|;
      ghost var room := Room(|mStorage|, mWritePos, |EncodeAll(vs, tys)|, LastOfAll(vs, tys));
      var i := 0;
      assert vs[0..] == vs && tys[0..] == tys;
      while i < |vs|
        invariant i <= |vs|
        invariant Overwrite(mStorage, mWritePos, EncodeAll(vs[i..], tys[i..])) == goal
        invariant mWritePos + |EncodeAll(vs[i..], tys[i..])| == end
        invariant Room(|mStorage|, mWritePos, |EncodeAll(vs[i..], tys[i..])|, LastOfAll(vs[i..], tys[i..])) <==> room
      {
        assert vs[i..][1..] == vs[i + 1..] && tys[i..][1..] == tys[i + 1..];
        RoomForAll(|mStorage|, mWritePos, vs[i..], tys[i..]);
        OverwriteConcat(mStorage, mWritePos, Encode(vs[i], tys[i]), EncodeAll(vs[i + 1..], tys[i + 1..]));
        ok := Write(vs[i], tys[i]);
        if !ok { return; }
        i := i + 1;
      }
      assert vs[i..] == [] && tys[i..] == [];
      OverwriteNothing(mStorage, mWritePos);
      NoRoomNeeded(|mStorage|, mWritePos);
      ok := true;
    }

    /** b >> x >> y >> ... */
    method ReadAll(tys: seq<Ty>) returns (vs: seq<Val>)
      requires mReadPos <= |mStorage| && DecodeAll(tys, Rest()).Ok?
      modifies this`mReadPos
      ensures mReadPos <= |mStorage|
      ensures vs == DecodeAll(tys, old(Rest())).value && Rest() == DecodeAll(tys, old(Rest())).rest
    {
      hide Decode;
      vs := [];
      ghost var goal := DecodeAll(tys, Rest());
      assert tys[0..] == tys;
      assert [] + goal.value == goal.value;
      var i := 0;
      while i < |tys|
        invariant i <= |tys| && mReadPos <= |mStorage|
        invariant DecodeAll(tys[i..], Rest()).Ok?
        invariant vs + DecodeAll(tys[i..], Rest()).value == goal.value && DecodeAll(tys[i..], Rest()).rest == goal.rest
      {
        assert tys[i..][1..] == tys[i + 1..];
        ghost var r := Rest();
        var v := Read(tys[i]);
        assert vs + ([v] + DecodeAll(tys[i + 1..], Rest()).value) == (vs + [v]) + DecodeAll(tys[i + 1..], Rest()).value;
        vs := vs + [v];
        i := i + 1;
      }
    }
  }

  lemma NoSeq(e: Ty)
    ensures EncodeSeq([], e) == []
  {
  }

  lemma NoValues()
    ensures EncodeAll([], []) == []
  {
  }

  lemma NoRoomNeeded(size: nat, pos: nat)
    ensures Room(size, pos, 0, 0)
  {
  }

  lemma RoomForOne(size: nat, pos: nat, n: nat)
    requires n > 0
    ensures Room(size, pos, n, n) <==> size < LIMIT
  {
  }

  lemma OverwriteNothing(s: bytes, p: nat)
    ensures Overwrite(s, p, []) == s
  {
  }

  /** Writing two parts of a record in turn is writing the record. */
  lemma {:induction false} LastOfAllSplits(vs: seq<Val>, tys: seq<Ty>, i: nat)
    requires HaveTypes(vs, tys) && i < |vs|
    ensures HaveTypes(vs[i..], tys[i..]) && LastOfAll(vs[i..], tys[i..]) == LastOfAll(vs, tys)
    decreases i
  {
    if i == 0 {
      assert vs[0..] == vs && tys[0..] == tys;
    } else {
      assert vs[1..][i - 1..] == vs[i..] && tys[1..][i - 1..] == tys[i..];
      LastOfAllSplits(vs[1..], tys[1..], i - 1);
    }
  }

  /**
   What is written from a cleared buffer is read back, and the read cursor ends where the write cursor
   is, for every record but those so large that an append fails its assertion.
   */
  method RecordThroughBuffer(b: ByteBuffer, vs: seq<Val>, tys: seq<Ty>) returns (ok: bool, read: seq<Val>)
    requires |vs| == |tys| && forall i | 0 <= i < |vs| :: HasType(vs[i], tys[i])
    modifies b
    ensures ok <==> |EncodeAll(vs, tys)| - LastOfAll(vs, tys) < 10000000
    ensures ok ==> read == vs && b.mReadPos == b.mWritePos == |b.mStorage|
  {
    hide Overwrite, EncodeAll, DecodeAll, LastOfAll;
    read := [];
    b.Clear();
    OverwriteAtEnd([], EncodeAll(vs, tys));
    ok := b.WriteAll(vs, tys);
    if !ok { return; }
    RecordRoundTrip(vs, tys, []);
    assert b.Rest() == EncodeAll(vs, tys) + [];
    read := b.ReadAll(tys);
  }

  /** Putting a same-width value at the recorded offset of a field changes that field alone, and no cursor. */
  method BackPatchThroughBuffer(b: ByteBuffer, vs: seq<Val>, tys: seq<Ty>, i: nat, v: Val)
    returns (ok: bool, read: seq<Val>)
    requires HaveTypes(vs, tys)
    requires i < |vs| && HasType(v, tys[i]) && |Encode(v, tys[i])| == |Encode(vs[i], tys[i])|
    modifies b
    ensures ok <==> |EncodeAll(vs, tys)| - LastOfAll(vs, tys) < 10000000
    ensures ok ==> read == vs[i := v] && b.mReadPos == b.mWritePos == |b.mStorage|
  {
    hide Overwrite, EncodeAll, DecodeAll, Encode, Patch, LastOfAll, Last, Room;
    read := [];
    b.Clear();
    EncodeAllSplits(vs, tys, i);
    LastOfAllSplits(vs, tys, i);
    ghost var front, back := EncodeAll(vs[..i], tys[..i]), EncodeAll(vs[i..], tys[i..]);
    RoomSplit(0, 0, |front|, LastOfAll(vs[..i], tys[..i]), |back|, LastOfAll(vs, tys));
    RoomFromEmpty(|EncodeAll(vs, tys)|, LastOfAll(vs, tys));
    OverwriteAtEnd([], front);
    ok := b.WriteAll(vs[..i], tys[..i]);
    if !ok { return; }
    var pos := b.mWritePos;
    OverwriteAtEnd(b.mStorage, back);
    ok := b.WriteAll(vs[i..], tys[i..]);
    if !ok { return; }
    BackPatch(vs, tys, i, v, []);
    assert b.mStorage == EncodeAll(vs, tys);
    PatchSize(b.mStorage, pos, Encode(v, tys[i]));
    b.Put(pos, Encode(v, tys[i]));
    assert b.Rest() == EncodeAll(vs[i := v], tys) + [];
    read := b.ReadAll(tys);
  }

  /** The same for a field of fixed width, where any value of the type may be put. */
  method BackPatchFixedThroughBuffer(b: ByteBuffer, vs: seq<Val>, tys: seq<Ty>, i: nat, v: Val)
    returns (ok: bool, read: seq<Val>)
    requires HaveTypes(vs, tys) && i < |vs| && HasType(v, tys[i])
    requires tys[i].TUnsigned? || tys[i].TSigned? || tys[i].TBool?
    modifies b
    ensures ok <==> |EncodeAll(vs, tys)| - LastOfAll(vs, tys) < 10000000
    ensures ok ==> read == vs[i := v] && b.mReadPos == b.mWritePos == |b.mStorage|
  {
    hide EncodeAll, LastOfAll, Encode;
    FixedWidth(v, vs[i], tys[i]);
    ok, read := BackPatchThroughBuffer(b, vs, tys, i, v);
  }

  lemma RoomFromEmpty(n: nat, last: nat)
    requires last <= n
    ensures Room(0, 0, n, last) <==> n - last < LIMIT
  {
  }

  lemma PatchSize(s: bytes, pos: nat, src: bytes)
    requires pos + |src| <= |s|
    ensures |Patch(s, pos, src)| == |s|
  {
  }
}
