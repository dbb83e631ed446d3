/** What the << and >> operators of ByteBuffer.h put on the wire: integers, bool, strings and nested containers. */
module BufferCodec {
  import opened Bytes

  type Width = w: nat | w == 1 || w == 2 || w == 4 || w == 8 witness 1

  datatype Ty =
    | TUnsigned(w: Width)
    | TSigned(w: Width)
    | TBool
    | TString
    | TVector(elem: Ty)
    | TList(elem: Ty)
    | TMap(key: Ty, val: Ty)

  /** A map is the list of its bindings in iteration order. */
  datatype Val =
    | VInt(i: int)
    | VBool(b: bool)
    | VString(s: bytes)
    | VSeq(vs: seq<Val>)
    | VMap(kvs: seq<Binding>)
  datatype Binding = Binding(key: Val, val: Val)

  // ------------------------------------------------------------------
  // Map keys and insertion
  // ------------------------------------------------------------------

  /** Negative, zero or positive as a comes before, with or after b in the order std::map uses. */
  function Compare(a: Val, b: Val): int
    decreases a, 0
  {
    match (a, b)
    case (VInt(x), VInt(y)) => x - y
    case (VBool(x), VBool(y)) => (if x then 1 else 0) - (if y then 1 else 0)
    case (VString(x), VString(y)) => CompareBytes(x, y)
    case (VSeq(x), VSeq(y)) => CompareSeq(x, y)
    case (VMap(x), VMap(y)) => ComparePairs(x, y)
    case _ => 0
  }

  function CompareBytes(a: bytes, b: bytes): int {
    if a == [] || b == [] then |a| - |b|
    else if a[0] != b[0] then a[0] - b[0]
    else CompareBytes(a[1..], b[1..])
  }

  function CompareSeq(a: seq<Val>, b: seq<Val>): int
    decreases a, 1
  {
    if a == [] || b == [] then |a| - |b|
    else
      var c := Compare(a[0], b[0]);
      if c != 0 then c else CompareSeq(a[1..], b[1..])
  }

  function ComparePairs(a: seq<Binding>, b: seq<Binding>): int
    decreases a, 1
  {
    if a == [] || b == [] then |a| - |b|
    else
      var c := CompareBinding(a[0], b[0]);
      if c != 0 then c else ComparePairs(a[1..], b[1..])
  }

  function CompareBinding(a: Binding, b: Binding): int
    decreases a, 2
  {
    match a
    case Binding(k, v) =>
      var c := Compare(k, b.key);
      if c != 0 then c else Compare(v, b.val)
  }

  lemma {:induction false} CompareAntisymmetric(a: Val, b: Val)
    ensures Compare(b, a) == -Compare(a, b)
    decreases a, 0
  {
    match (a, b)
    case (VString(x), VString(y)) => CompareBytesAntisymmetric(x, y);
    case (VSeq(x), VSeq(y)) => CompareSeqAntisymmetric(x, y);
    case (VMap(x), VMap(y)) => ComparePairsAntisymmetric(x, y);
    case _ =>
  }

  lemma {:induction false} CompareBytesAntisymmetric(a: bytes, b: bytes)
    ensures CompareBytes(b, a) == -CompareBytes(a, b)
  {
    if a != [] && b != [] {
      CompareBytesAntisymmetric(a[1..], b[1..]);
    }
  }

  lemma {:induction false} CompareSeqAntisymmetric(a: seq<Val>, b: seq<Val>)
    ensures CompareSeq(b, a) == -CompareSeq(a, b)
    decreases a, 1
  {
    if a != [] && b != [] {
      CompareAntisymmetric(a[0], b[0]);
      CompareSeqAntisymmetric(a[1..], b[1..]);
    }
  }

  lemma {:induction false} ComparePairsAntisymmetric(a: seq<Binding>, b: seq<Binding>)
    ensures ComparePairs(b, a) == -ComparePairs(a, b)
    decreases a, 1
  {
    if a != [] && b != [] {
      CompareBindingAntisymmetric(a[0], b[0]);
      ComparePairsAntisymmetric(a[1..], b[1..]);
    }
  }

  lemma {:induction false} CompareBindingAntisymmetric(a: Binding, b: Binding)
    ensures CompareBinding(b, a) == -CompareBinding(a, b)
    decreases a, 2
  {
    match a
    case Binding(k, v) =>
      CompareAntisymmetric(k, b.key);
      CompareAntisymmetric(v, b.val);
  }

  /** std::map::insert: the new binding goes in key order, and gives way to one that is already there. */
  function Insert(m: seq<Binding>, k: Val, v: Val): seq<Binding> {
    if m == [] || Compare(k, m[0].key) < 0 then [Binding(k, v)] + m
    else if Compare(m[0].key, k) < 0 then [m[0]] + Insert(m[1..], k, v)
    else m
  }

  predicate Ascending(m: seq<Binding>) {
    forall i, j | 0 <= i < j < |m| :: Compare(m[i].key, m[j].key) < 0
  }

  function Spliced(m: seq<Binding>, b: Binding, i: nat): seq<Binding>
    requires i <= |m|
  {
    m[..i] + [b] + m[i..]
  }

  lemma SplicedFront(m: seq<Binding>, b: Binding)
    ensures Spliced(m, b, 0) == [b] + m
  {
  }

  lemma SplicedCons(m: seq<Binding>, b: Binding, i: nat)
    requires 0 < i <= |m|
    ensures Spliced(m, b, i) == [m[0]] + Spliced(m[1..], b, i - 1)
  {
    assert m[..i] == [m[0]] + m[1..][..i - 1] && m[i..] == m[1..][i - 1..];
  }

  /** i is where k belongs: a new key goes in there, and a key already there keeps its first binding. */
  lemma {:induction false} InsertPlaces(m: seq<Binding>, k: Val, v: Val, i: nat)
    requires i <= |m| && forall j | 0 <= j < i :: Compare(m[j].key, k) < 0
    ensures i == |m| || Compare(k, m[i].key) < 0 ==> Insert(m, k, v) == Spliced(m, Binding(k, v), i)
    ensures i < |m| && m[i].key == k ==> Insert(m, k, v) == m
    decreases i
  {
    hide Compare, Spliced;
    if i == 0 {
      SplicedFront(m, Binding(k, v));
      CompareAntisymmetric(k, k);
    } else {
      CompareAntisymmetric(m[0].key, k);
      InsertPlaces(m[1..], k, v, i - 1);
      assert m == [m[0]] + m[1..];
      SplicedCons(m, Binding(k, v), i);
    }
  }

  // ------------------------------------------------------------------
  // Values of a type
  // ------------------------------------------------------------------

  /** Strings hold no zero byte, containers fewer than 2^32 entries, maps their keys in ascending order. */
  predicate HasType(v: Val, ty: Ty)
    decreases ty, 2
  {
    match (v, ty)
    case (VInt(i), TUnsigned(w)) => 0 <= i < Pow256(w)
    case (VInt(i), TSigned(w)) => -(Pow256(w) as int) <= 2 * i < Pow256(w)
    case (VBool(_), TBool) => true
    case (VString(s), TString) => 0 !in s
    case (VSeq(vs), TVector(e)) => |vs| < 0x1_0000_0000 && forall i | 0 <= i < |vs| :: HasType(vs[i], e)
    case (VSeq(vs), TList(e)) => |vs| < 0x1_0000_0000 && forall i | 0 <= i < |vs| :: HasType(vs[i], e)
    case (VMap(kvs), TMap(k, e)) =>
      |kvs| < 0x1_0000_0000 && Ascending(kvs) &&
      forall i | 0 <= i < |kvs| :: HasType(kvs[i].key, k) && HasType(kvs[i].val, e)
    case _ => false
  }

  predicate BindingsHaveTypes(kvs: seq<Binding>, k: Ty, e: Ty) {
    forall i | 0 <= i < |kvs| :: HasType(kvs[i].key, k) && HasType(kvs[i].val, e)
  }

  // ------------------------------------------------------------------
  // The order of map keys: a strict total order on the values of a type
  // ------------------------------------------------------------------

  lemma {:induction false} BytesEqual(x: bytes, y: bytes)
    ensures CompareBytes(x, y) == 0 <==> x == y
  {
    if x != [] && y != [] {
      assert x == [x[0]] + x[1..] && y == [y[0]] + y[1..];
      BytesEqual(x[1..], y[1..]);
    }
  }

  lemma {:induction false} OnlyEqual(a: Val, b: Val, ty: Ty)
    requires HasType(a, ty) && HasType(b, ty)
    ensures Compare(a, b) == 0 <==> a == b
    decreases ty, 0
  {
    match ty
    case TString => BytesEqual(a.s, b.s);
    case TVector(e) => OnlyEqualSeq(a.vs, b.vs, e);
    case TList(e) => OnlyEqualSeq(a.vs, b.vs, e);
    case TMap(k, e) => OnlyEqualPairs(a.kvs, b.kvs, k, e);
    case _ =>
  }

  lemma {:induction false} OnlyEqualSeq(x: seq<Val>, y: seq<Val>, e: Ty)
    requires forall i | 0 <= i < |x| :: HasType(x[i], e)
    requires forall i | 0 <= i < |y| :: HasType(y[i], e)
    ensures CompareSeq(x, y) == 0 <==> x == y
    decreases e, 1, |x|
  {
    hide Compare, HasType;
    if x != [] && y != [] {
      assert x == [x[0]] + x[1..] && y == [y[0]] + y[1..];
      OnlyEqual(x[0], y[0], e);
      OnlyEqualSeq(x[1..], y[1..], e);
    }
  }

  lemma {:induction false} OnlyEqualPairs(x: seq<Binding>, y: seq<Binding>, k: Ty, e: Ty)
    requires BindingsHaveTypes(x, k, e) && BindingsHaveTypes(y, k, e)
    ensures ComparePairs(x, y) == 0 <==> x == y
    decreases TMap(k, e), 0, |x|
  {
    hide Compare, HasType;
    if x != [] && y != [] {
      assert x == [x[0]] + x[1..] && y == [y[0]] + y[1..];
      OnlyEqual(x[0].key, y[0].key, k);
      OnlyEqual(x[0].val, y[0].val, e);
      OnlyEqualPairs(x[1..], y[1..], k, e);
    }
  }

  lemma {:induction false} BytesTransitive(x: bytes, y: bytes, z: bytes)
    requires CompareBytes(x, y) < 0 && CompareBytes(y, z) < 0
    ensures CompareBytes(x, z) < 0
  {
    if x != [] && x[0] == y[0] == z[0] {
      BytesTransitive(x[1..], y[1..], z[1..]);
    }
  }

  lemma {:induction false} Transitive(a: Val, b: Val, c: Val, ty: Ty)
    requires HasType(a, ty) && HasType(b, ty) && HasType(c, ty)
    requires Compare(a, b) < 0 && Compare(b, c) < 0
    ensures Compare(a, c) < 0
    decreases ty, 2
  {
    match ty
    case TString => BytesTransitive(a.s, b.s, c.s);
    case TVector(e) => TransitiveSeq(a.vs, b.vs, c.vs, e);
    case TList(e) => TransitiveSeq(a.vs, b.vs, c.vs, e);
    case TMap(k, e) => TransitivePairs(a.kvs, b.kvs, c.kvs, k, e);
    case _ =>
  }

  lemma {:induction false} TransitiveSeq(x: seq<Val>, y: seq<Val>, z: seq<Val>, e: Ty)
    requires forall i | 0 <= i < |x| :: HasType(x[i], e)
    requires forall i | 0 <= i < |y| :: HasType(y[i], e)
    requires forall i | 0 <= i < |z| :: HasType(z[i], e)
    requires CompareSeq(x, y) < 0 && CompareSeq(y, z) < 0
    ensures CompareSeq(x, z) < 0
    decreases e, 3, |x|
  {
    hide Compare, HasType;
    if x != [] {
      OnlyEqual(x[0], y[0], e);
      OnlyEqual(y[0], z[0], e);
      if x[0] == y[0] == z[0] {
        TransitiveSeq(x[1..], y[1..], z[1..], e);
      } else if x[0] != y[0] && y[0] != z[0] {
        Transitive(x[0], y[0], z[0], e);
      }
    }
  }

  lemma {:induction false} TransitivePairs(x: seq<Binding>, y: seq<Binding>, z: seq<Binding>, k: Ty, e: Ty)
    requires BindingsHaveTypes(x, k, e) && BindingsHaveTypes(y, k, e) && BindingsHaveTypes(z, k, e)
    requires ComparePairs(x, y) < 0 && ComparePairs(y, z) < 0
    ensures ComparePairs(x, z) < 0
    decreases TMap(k, e), 1, |x|
  {
    hide Compare, HasType;
    if x != [] {
      OnlyEqual(x[0].key, y[0].key, k);
      OnlyEqual(y[0].key, z[0].key, k);
      OnlyEqual(x[0].val, y[0].val, e);
      OnlyEqual(y[0].val, z[0].val, e);
      if x[0] == y[0] == z[0] {
        TransitivePairs(x[1..], y[1..], z[1..], k, e);
      } else if x[0] != y[0] && y[0] != z[0] {
        TransitiveBinding(x[0], y[0], z[0], k, e);
      }
    }
  }

  lemma {:induction false} TransitiveBinding(a: Binding, b: Binding, c: Binding, k: Ty, e: Ty)
    requires BindingsHaveTypes([a, b, c], k, e)
    requires CompareBinding(a, b) < 0 && CompareBinding(b, c) < 0
    ensures CompareBinding(a, c) < 0
    decreases TMap(k, e), 0
  {
    hide Compare, HasType;
    assert forall x | x in [a, b, c] :: HasType(x.key, k) && HasType(x.val, e);
    OnlyEqual(a.key, b.key, k);
    OnlyEqual(b.key, c.key, k);
    OnlyEqual(a.key, c.key, k);
    if a.key != b.key && b.key != c.key { Transitive(a.key, b.key, c.key, k); }
    if a.key == b.key == c.key { Transitive(a.val, b.val, c.val, e); }
  }

  /** Compare is a strict total order on the values of a type. */
  lemma StrictTotalOrder(a: Val, b: Val, c: Val, ty: Ty)
    requires HasType(a, ty) && HasType(b, ty) && HasType(c, ty)
    ensures Compare(a, b) == 0 <==> a == b
    ensures Compare(a, b) < 0 <==> Compare(b, a) > 0
    ensures Compare(a, b) < 0 && Compare(b, c) < 0 ==> Compare(a, c) < 0
  {
    hide Compare, HasType;
    OnlyEqual(a, b, ty);
    CompareAntisymmetric(a, b);
    if Compare(a, b) < 0 && Compare(b, c) < 0 { Transitive(a, b, c, ty); }
  }

  /** Numbers are ordered as numbers, and false comes before true. */
  lemma NumberOrder(x: int, y: int)
    ensures Compare(VInt(x), VInt(y)) < 0 <==> x < y
    ensures Compare(VBool(false), VBool(true)) < 0
  {
  }

  /** Strings: the first position in which they differ decides, and a proper prefix comes first. */
  lemma {:induction false} StringOrder(x: bytes, y: bytes, i: nat)
    requires i <= |x| && i <= |y| && x[..i] == y[..i] && (i == |x| || i == |y| || x[i] != y[i])
    ensures Compare(VString(x), VString(y)) < 0 <==> i < |y| && (i == |x| || x[i] < y[i])
    decreases i
  {
    if i > 0 {
      assert x[0] == x[..i][0] == y[..i][0] == y[0];
      assert x[1..][..i - 1] == x[..i][1..] == y[..i][1..] == y[1..][..i - 1];
      StringOrder(x[1..], y[1..], i - 1);
    }
  }

  /** The same for vectors and lists, whose elements are ordered as values of their type. */
  lemma {:induction false} SeqOrder(x: seq<Val>, y: seq<Val>, i: nat, e: Ty)
    requires forall j | 0 <= j < |x| :: HasType(x[j], e)
    requires forall j | 0 <= j < |y| :: HasType(y[j], e)
    requires i <= |x| && i <= |y| && x[..i] == y[..i] && (i == |x| || i == |y| || x[i] != y[i])
    ensures Compare(VSeq(x), VSeq(y)) < 0 <==> i < |y| && (i == |x| || Compare(x[i], y[i]) < 0)
    decreases i
  {
    hide HasType;
    if x != [] && y != [] { OnlyEqual(x[0], y[0], e); }
    if i > 0 {
      assert x[0] == x[..i][0] == y[..i][0] == y[0];
      assert x[1..][..i - 1] == x[..i][1..] == y[..i][1..] == y[1..][..i - 1];
      SeqOrder(x[1..], y[1..], i - 1, e);
    }
  }

  lemma BindingOrder(a: Binding, b: Binding, k: Ty, e: Ty)
    requires HasType(a.key, k) && HasType(a.val, e) && HasType(b.key, k) && HasType(b.val, e)
    ensures CompareBinding(a, b) == 0 <==> a == b
    ensures CompareBinding(a, b) < 0 <==>
            Compare(a.key, b.key) < 0 || (a.key == b.key && Compare(a.val, b.val) < 0)
  {
    hide Compare, HasType;
    OnlyEqual(a.key, b.key, k);
    OnlyEqual(a.val, b.val, e);
    assert a == Binding(a.key, a.val) && b == Binding(b.key, b.val);
  }

  lemma {:induction false} PairsOrder(x: seq<Binding>, y: seq<Binding>, i: nat, k: Ty, e: Ty)
    requires BindingsHaveTypes(x, k, e) && BindingsHaveTypes(y, k, e)
    requires i <= |x| && i <= |y| && x[..i] == y[..i] && (i == |x| || i == |y| || x[i] != y[i])
    ensures ComparePairs(x, y) < 0 <==> i < |y| && (i == |x| || CompareBinding(x[i], y[i]) < 0)
    decreases i
  {
    hide HasType, Compare, CompareBinding;
    if x != [] && y != [] { BindingOrder(x[0], y[0], k, e); }
    if i > 0 {
      assert x[0] == x[..i][0] == y[..i][0] == y[0];
      assert x[1..][..i - 1] == x[..i][1..] == y[..i][1..] == y[1..][..i - 1];
      PairsOrder(x[1..], y[1..], i - 1, k, e);
    }
  }

  /** And for maps, where a binding is ordered by its key and then by its value. */
  lemma MapOrder(x: seq<Binding>, y: seq<Binding>, i: nat, k: Ty, e: Ty)
    requires BindingsHaveTypes(x, k, e) && BindingsHaveTypes(y, k, e)
    requires i <= |x| && i <= |y| && x[..i] == y[..i] && (i == |x| || i == |y| || x[i] != y[i])
    ensures Compare(VMap(x), VMap(y)) < 0 <==>
            i < |y| && (i == |x| || Compare(x[i].key, y[i].key) < 0
                        || (x[i].key == y[i].key && Compare(x[i].val, y[i].val) < 0))
  {
    hide HasType, CompareBinding, ComparePairs;
    PairsOrder(x, y, i, k, e);
    if i < |x| && i < |y| { BindingOrder(x[i], y[i], k, e); }
  }

  // ------------------------------------------------------------------
  // operator<<
  // ------------------------------------------------------------------

  function Encode(v: Val, ty: Ty): bytes
    requires HasType(v, ty)
    decreases ty, 2
  {
    match ty
    case TUnsigned(w) => ToLE(v.i, w)
    case TSigned(w) => ToLE(Unsigned(v.i, w), w)
    case TBool => [if v.b then 1 else 0]
    case TString => v.s + [0]
    case TVector(e) => ToLE(|v.vs|, 4) + EncodeSeq(v.vs, e)
    case TList(e) => ToLE(|v.vs|, 4) + EncodeSeq(v.vs, e)
    case TMap(k, e) => ToLE(|v.kvs|, 4) + EncodePairs(v.kvs, k, e)
  }

  function EncodeSeq(vs: seq<Val>, e: Ty): bytes
    requires forall i | 0 <= i < |vs| :: HasType(vs[i], e)
    decreases e, 3, |vs|
  {
    if vs == [] then [] else Encode(vs[0], e) + EncodeSeq(vs[1..], e)
  }

  function EncodePairs(kvs: seq<Binding>, k: Ty, e: Ty): bytes
    requires BindingsHaveTypes(kvs, k, e)
    decreases TMap(k, e), 1, |kvs|
  {
    if kvs == [] then [] else Encode(kvs[0].key, k) + Encode(kvs[0].val, e) + EncodePairs(kvs[1..], k, e)
  }

  /** Integers take their width in bytes, negative ones in two's complement. */
  lemma IntegerBytes(i: int, w: Width)
    ensures HasType(VInt(i), TUnsigned(w)) ==>
              |Encode(VInt(i), TUnsigned(w))| == w && FromLE(Encode(VInt(i), TUnsigned(w))) == i
    ensures HasType(VInt(i), TSigned(w)) ==>
              && |Encode(VInt(i), TSigned(w))| == w
              && FromLE(Encode(VInt(i), TSigned(w))) ==
                 if i >= 0 then i
                 else if w == 1 then i + 0x100
                 else if w == 2 then i + 0x1_0000
                 else if w == 4 then i + 0x1_0000_0000
                 else i + 0x1_0000_0000_0000_0000
  {
    hide FromLE, ToLE;
    PowersOf256();
    if HasType(VInt(i), TUnsigned(w)) { FromToLE(i, w); }
    if HasType(VInt(i), TSigned(w)) { FromToLE(Unsigned(i, w), w); }
  }

  /** Minus two as an int32, and the limits of some types. */
  lemma IntegerExamples()
    ensures HasType(VInt(-2), TSigned(4)) && Encode(VInt(-2), TSigned(4)) == [0xFE, 0xFF, 0xFF, 0xFF]
    ensures HasType(VInt(-128), TSigned(1)) && !HasType(VInt(128), TSigned(1)) && !HasType(VInt(-129), TSigned(1))
    ensures HasType(VInt(255), TUnsigned(1)) && !HasType(VInt(256), TUnsigned(1)) && !HasType(VInt(-1), TUnsigned(1))
    ensures HasType(VInt(-32768), TSigned(2)) && HasType(VInt(65535), TUnsigned(2))
    ensures HasType(VInt(-0x8000_0000_0000_0000), TSigned(8)) && HasType(VInt(0xFFFF_FFFF_FFFF_FFFF), TUnsigned(8))
  {
    hide ToLE;
    PowersOf256();
    LittleEndianBytes([0xFE, 0xFF, 0xFF, 0xFF]);
  }

  /** A list of two strings: a count of four bytes, then each string with its zero byte. */
  lemma ListExample()
    ensures var v := VSeq([VString([65, 66]), VString([])]);
            && HasType(v, TList(TString)) && HasType(v, TVector(TString))
            && Encode(v, TList(TString)) == Encode(v, TVector(TString)) == [2, 0, 0, 0, 65, 66, 0, 0]
  {
    hide ToLE;
    LittleEndianBytes([2, 0, 0, 0]);
    var ab, none := VString([65, 66]), VString([]);
    assert [ab, none][1..] == [none] && [none][1..] == [];
    assert EncodeSeq([none], TString) == [0];
    assert EncodeSeq([ab, none], TString) == [65, 66, 0, 0];
  }

  lemma TwoBindings()
    ensures BindingsHaveTypes([Binding(VInt(1), VBool(true)), Binding(VInt(2), VBool(false))], TUnsigned(1), TBool)
    ensures Ascending([Binding(VInt(1), VBool(true)), Binding(VInt(2), VBool(false))])
  {
    PowersOf256();
  }

  lemma NumberThenBool(n: byte, b: bool)
    ensures HasType(VInt(n), TUnsigned(1)) && Encode(VInt(n), TUnsigned(1)) == [n]
    ensures HasType(VBool(b), TBool) && Encode(VBool(b), TBool) == [if b then 1 else 0]
  {
    hide ToLE;
    PowersOf256();
    LittleEndianBytes([n]);
  }

  /** A map of two bindings: a count of four bytes, then each key and value. */
  lemma MapExample()
    ensures var m := VMap([Binding(VInt(1), VBool(true)), Binding(VInt(2), VBool(false))]);
            && HasType(m, TMap(TUnsigned(1), TBool))
            && Encode(m, TMap(TUnsigned(1), TBool)) == [2, 0, 0, 0, 1, 1, 2, 0]
  {
    hide ToLE, Ascending, Compare;
    TwoBindings();
    LittleEndianBytes([2, 0, 0, 0]);
    NumberThenBool(1, true);
    NumberThenBool(2, false);
    var b1, b2 := Binding(VInt(1), VBool(true)), Binding(VInt(2), VBool(false));
    assert [b1, b2][1..] == [b2] && [b2][1..] == [];
    assert EncodePairs([b2], TUnsigned(1), TBool) == [2, 0];
    assert EncodePairs([b1, b2], TUnsigned(1), TBool) == [1, 1, 2, 0];
  }

  // ------------------------------------------------------------------
  // operator>>: Bad stands for the failed assertion of a read past the end
  // ------------------------------------------------------------------

  function DecodeInt(s: bytes, w: nat): Parsed<nat> {
    if |s| < w then Bad else Ok(FromLE(s[..w]), s[w..])
  }

  /** A string ends at its zero byte, or where the input does. */
  function DecodeString(s: bytes): (d: Parsed<bytes>)
    ensures d.Ok?
  {
    var r := CString(s);
    Ok(r, if |r| < |s| then s[|r| + 1..] else [])
  }

  function Decode(ty: Ty, s: bytes): Parsed<Val>
    decreases ty, 2
  {
    match ty
    case TUnsigned(w) =>
      (match DecodeInt(s, w) case Bad => Bad case Ok(u, rest) => Ok(VInt(u), rest))
    case TSigned(w) =>
      (match DecodeInt(s, w) case Bad => Bad case Ok(u, rest) => Ok(VInt(Signed(u, w)), rest))
    case TBool =>  // a char above zero, and char is signed
      (match DecodeInt(s, 1) case Bad => Bad case Ok(u, rest) => Ok(VBool(0 < u < 128), rest))
    case TString =>
      (match DecodeString(s) case Bad => Bad case Ok(b, rest) => Ok(VString(b), rest))
    case TVector(e) =>
      (match DecodeInt(s, 4) case Bad => Bad case Ok(n, rest) => DecodeSeq(e, n, [], rest))
    case TList(e) =>
      (match DecodeInt(s, 4) case Bad => Bad case Ok(n, rest) => DecodeSeq(e, n, [], rest))
    case TMap(k, e) =>
      (match DecodeInt(s, 4) case Bad => Bad case Ok(n, rest) => DecodePairs(k, e, n, [], rest))
  }

  /** Reads n more elements behind those in acc. */
  function DecodeSeq(e: Ty, n: nat, acc: seq<Val>, s: bytes): Parsed<Val>
    decreases e, 3, n
  {
    if n == 0 then Ok(VSeq(acc), s)
    else
      match Decode(e, s)
      case Bad => Bad
      case Ok(v, rest) => DecodeSeq(e, n - 1, acc + [v], rest)
  }

  function DecodePairs(k: Ty, e: Ty, n: nat, acc: seq<Binding>, s: bytes): Parsed<Val>
    decreases TMap(k, e), 1, n
  {
    if n == 0 then Ok(VMap(acc), s)
    else
      match Decode(k, s)
      case Bad => Bad
      case Ok(key, s1) =>
        match Decode(e, s1)
        case Bad => Bad
        case Ok(val, s2) => DecodePairs(k, e, n - 1, Insert(acc, key, val), s2)
  }

  /** A read fails exactly when its bytes are not there; a string's always are. */
  lemma ReadFails(w: Width, s: bytes)
    ensures Decode(TUnsigned(w), s) == Bad <==> |s| < w
    ensures Decode(TSigned(w), s) == Bad <==> |s| < w
    ensures Decode(TBool, s) == Bad <==> s == []
    ensures Decode(TString, s) != Bad
  {
  }

  /** A bool is written as 1 or 0, and any char above zero, which is signed, reads as true. */
  lemma BoolBytes(c: byte, t: bytes)
    ensures Encode(VBool(true), TBool) == [1] && Encode(VBool(false), TBool) == [0]
    ensures Decode(TBool, [c] + t) == Ok(VBool(1 <= c <= 127), t)
  {
    assert ([c] + t)[..1] == [c] && ([c] + t)[1..] == t;
    assert [c][1..] == [] && FromLE([]) == 0;
  }

  // ------------------------------------------------------------------
  // Round trips, with any bytes behind the value
  // ------------------------------------------------------------------

  lemma IntRoundTrip(u: nat, w: nat, t: bytes)
    requires u < Pow256(w)
    ensures DecodeInt(ToLE(u, w) + t, w) == Ok(u, t)
  {
    FromToLE(u, w);
    assert (ToLE(u, w) + t)[..w] == ToLE(u, w) && (ToLE(u, w) + t)[w..] == t;
  }

  lemma CountRoundTrip(n: nat, body: bytes, t: bytes)
    requires n < 0x1_0000_0000
    ensures DecodeInt(ToLE(n, 4) + body + t, 4) == Ok(n, body + t)
  {
    PowersOf256();
    IntRoundTrip(n, 4, body + t);
    assert ToLE(n, 4) + body + t == ToLE(n, 4) + (body + t);
  }

  lemma BoolRoundTrip(b: bool, t: bytes)
    ensures DecodeInt([if b then 1 else 0] + t, 1) == Ok(if b then 1 else 0, t)
  {
    var n := if b then 1 else 0;
    PowersOf256();
    IntRoundTrip(n, 1, t);
    assert ToLE(n / 256, 0) == [];
    assert ToLE(n, 1) == [n];
  }

  lemma SignedRoundTrip(i: int, w: nat)
    requires -(Pow256(w) as int) <= 2 * i < Pow256(w)
    ensures Unsigned(i, w) < Pow256(w) && Signed(Unsigned(i, w), w) == i
  {
  }

  lemma StringReadsBack(s: bytes, t: bytes)
    requires 0 !in s
    ensures DecodeString(s + [0] + t) == Ok(s, t)
  {
    CStringStopsAtZero(s, t);
    CutAfter(s, t);
  }

  lemma CutAfter(s: bytes, t: bytes)
    ensures (s + [0] + t)[|s| + 1..] == t
  {
  }

  /** A string reads back as its C string; so exactly the strings without a zero byte read back whole. */
  lemma StringRoundTrip(s: bytes, t: bytes)
    ensures DecodeString(s + [0] + t).Ok? && DecodeString(s + [0] + t).value == CString(s)
    ensures DecodeString(s + [0] + t) == Ok(s, t) <==> 0 !in s
    ensures 0 !in s ==> DecodeString(s) == Ok(s, [])    // without a zero byte, up to the end
  {
    if 0 !in s {
      StringReadsBack(s, t);
      CStringStopsAtZero(s, t);
    } else {
      CStringWithin(s, [0] + t);
      assert s + [0] + t == s + ([0] + t);
    }
  }

  lemma {:induction false} RoundTrip(v: Val, ty: Ty, t: bytes)
    requires HasType(v, ty)
    ensures Decode(ty, Encode(v, ty) + t) == Ok(v, t)
    decreases ty, 2
  {
    hide ToLE, DecodeInt, DecodeString, EncodeSeq, EncodePairs, DecodeSeq, DecodePairs;
    match ty
    case TUnsigned(w) => IntRoundTrip(v.i, w, t);
    case TSigned(w) =>
      SignedRoundTrip(v.i, w);
      IntRoundTrip(Unsigned(v.i, w), w, t);
    case TBool =>
      BoolRoundTrip(v.b, t);
    case TString => StringReadsBack(v.s, t);
    case TVector(e) =>
      CountRoundTrip(|v.vs|, EncodeSeq(v.vs, e), t);
      SeqRoundTrip([], v.vs, e, t);
      assert [] + v.vs == v.vs;
    case TList(e) =>
      CountRoundTrip(|v.vs|, EncodeSeq(v.vs, e), t);
      SeqRoundTrip([], v.vs, e, t);
      assert [] + v.vs == v.vs;
    case TMap(k, e) =>
      CountRoundTrip(|v.kvs|, EncodePairs(v.kvs, k, e), t);
      assert [] + v.kvs == v.kvs;
      PairsRoundTrip([], v.kvs, k, e, t);
  }

  lemma {:induction false} SeqRoundTrip(acc: seq<Val>, vs: seq<Val>, e: Ty, t: bytes)
    requires forall i | 0 <= i < |vs| :: HasType(vs[i], e)
    ensures DecodeSeq(e, |vs|, acc, EncodeSeq(vs, e) + t) == Ok(VSeq(acc + vs), t)
    decreases e, 3, |vs|
  {
    hide Encode, Decode, HasType;
    if vs == [] {
      assert [] + t == t && acc + vs == acc;
    } else {
      var after := EncodeSeq(vs[1..], e) + t;
      assert EncodeSeq(vs, e) + t == Encode(vs[0], e) + after;
      RoundTrip(vs[0], e, after);
      SeqRoundTrip(acc + [vs[0]], vs[1..], e, t);
      assert acc + [vs[0]] + vs[1..] == acc + vs;
    }
  }

  lemma {:induction false} PairsRoundTrip(acc: seq<Binding>, kvs: seq<Binding>, k: Ty, e: Ty, t: bytes)
    requires BindingsHaveTypes(kvs, k, e)
    requires Ascending(acc + kvs)
    ensures DecodePairs(k, e, |kvs|, acc, EncodePairs(kvs, k, e) + t) == Ok(VMap(acc + kvs), t)
    decreases TMap(k, e), 1, |kvs|
  {
    hide Encode, Decode, HasType, Insert, Compare;
    if kvs == [] {
      assert [] + t == t && acc + kvs == acc;
    } else {
      var Binding(key, val) := kvs[0];
      var after := EncodePairs(kvs[1..], k, e) + t;
      assert EncodePairs(kvs, k, e) + t == Encode(key, k) + (Encode(val, e) + after);
      RoundTrip(key, k, Encode(val, e) + after);
      RoundTrip(val, e, after);
      forall i | 0 <= i < |acc|
        ensures Compare(acc[i].key, key) < 0
      {
        assert (acc + kvs)[i] == acc[i] && (acc + kvs)[|acc|] == kvs[0];
      }
      InsertPlaces(acc, key, val, |acc|);
      assert acc[..|acc|] + [Binding(key, val)] + acc[|acc|..] == acc + [kvs[0]];
      assert acc + [kvs[0]] + kvs[1..] == acc + kvs;
      PairsRoundTrip(acc + [kvs[0]], kvs[1..], k, e, t);
    }
  }

  // ------------------------------------------------------------------
  // Whatever can be read is a value of its type, and so can be written again
  // ------------------------------------------------------------------

  lemma {:induction false} InsertHolds(m: seq<Binding>, k: Val, v: Val)
    ensures |Insert(m, k, v)| <= |m| + 1
    ensures forall i | 0 <= i < |Insert(m, k, v)| :: Insert(m, k, v)[i] == Binding(k, v) || Insert(m, k, v)[i] in m
  {
    hide Compare;
    if m != [] { InsertHolds(m[1..], k, v); }
  }

  lemma AscendingCons(b: Binding, m: seq<Binding>)
    requires Ascending(m) && forall j | 0 <= j < |m| :: Compare(b.key, m[j].key) < 0
    ensures Ascending([b] + m)
  {
    hide Compare;
    forall i, j | 0 <= i < j < |[b] + m|
      ensures Compare(([b] + m)[i].key, ([b] + m)[j].key) < 0
    {
      assert ([b] + m)[j] == m[j - 1] && (i > 0 ==> ([b] + m)[i] == m[i - 1]);
    }
  }

  lemma InsertTyped(m: seq<Binding>, key: Val, v: Val, k: Ty, e: Ty)
    requires BindingsHaveTypes(m, k, e) && HasType(key, k) && HasType(v, e)
    ensures BindingsHaveTypes(Insert(m, key, v), k, e)
  {
    hide Insert, HasType;
    InsertHolds(m, key, v);
  }

  lemma {:induction false} InsertAscends(m: seq<Binding>, key: Val, v: Val, k: Ty)
    requires Ascending(m) && HasType(key, k) && forall j | 0 <= j < |m| :: HasType(m[j].key, k)
    ensures Ascending(Insert(m, key, v))
  {
    hide Compare, HasType, Ascending;
    if m == [] {
      assert Insert(m, key, v) == [Binding(key, v)];
      OneAscends(Binding(key, v));
    } else if Compare(key, m[0].key) < 0 {
      forall j | 0 <= j < |m|
        ensures Compare(key, m[j].key) < 0
      {
        if j > 0 {
          AscendingAt(m, 0, j);
          Transitive(key, m[0].key, m[j].key, k);
        }
      }
      AscendingCons(Binding(key, v), m);
    } else if Compare(m[0].key, key) < 0 {
      AscendingTail(m);
      InsertAscends(m[1..], key, v, k);
      InsertHolds(m[1..], key, v);
      AscendingCons(m[0], Insert(m[1..], key, v));
    }
  }

  lemma OneAscends(b: Binding)
    ensures Ascending([b])
  {
  }

  lemma AscendingAt(m: seq<Binding>, i: nat, j: nat)
    requires Ascending(m) && i < j < |m|
    ensures Compare(m[i].key, m[j].key) < 0
  {
  }

  lemma AscendingTail(m: seq<Binding>)
    requires Ascending(m) && m != []
    ensures Ascending(m[1..]) && forall b | b in m[1..] :: Compare(m[0].key, b.key) < 0
  {
  }

  lemma {:induction false} ReadHasType(ty: Ty, s: bytes)
    requires Decode(ty, s).Ok?
    ensures HasType(Decode(ty, s).value, ty)
    decreases ty, 2
  {
    hide DecodeSeq, DecodePairs;
    PowersOf256();
    match ty
    case TUnsigned(w) => ToFromLE(s[..w]);
    case TSigned(w) => ToFromLE(s[..w]);
    case TBool =>
    case TString =>
    case TVector(e) =>
      ToFromLE(s[..4]);
      ReadSeqHasType(e, FromLE(s[..4]), [], s[4..]);
    case TList(e) =>
      ToFromLE(s[..4]);
      ReadSeqHasType(e, FromLE(s[..4]), [], s[4..]);
    case TMap(k, e) =>
      ToFromLE(s[..4]);
      ReadPairsHaveTypes(k, e, FromLE(s[..4]), [], s[4..]);
  }

  lemma {:induction false} ReadSeqHasType(e: Ty, n: nat, acc: seq<Val>, s: bytes)
    requires DecodeSeq(e, n, acc, s).Ok? && |acc| + n < 0x1_0000_0000
    requires forall i | 0 <= i < |acc| :: HasType(acc[i], e)
    ensures HasType(DecodeSeq(e, n, acc, s).value, TVector(e)) && HasType(DecodeSeq(e, n, acc, s).value, TList(e))
    decreases e, 3, n
  {
    hide Decode;
    if n > 0 {
      ReadHasType(e, s);
      var Ok(v, rest) := Decode(e, s);
      ReadSeqHasType(e, n - 1, acc + [v], rest);
    }
  }

  lemma {:induction false} ReadPairsHaveTypes(k: Ty, e: Ty, n: nat, acc: seq<Binding>, s: bytes)
    requires DecodePairs(k, e, n, acc, s).Ok? && |acc| + n < 0x1_0000_0000
    requires Ascending(acc) && BindingsHaveTypes(acc, k, e)
    ensures HasType(DecodePairs(k, e, n, acc, s).value, TMap(k, e))
    decreases TMap(k, e), 1, n
  {
    hide Decode, Insert, Compare, Ascending;
    if n > 0 {
      ReadHasType(k, s);
      var Ok(key, s1) := Decode(k, s);
      ReadHasType(e, s1);
      var Ok(v, s2) := Decode(e, s1);
      InsertAscends(acc, key, v, k);
      InsertTyped(acc, key, v, k, e);
      InsertHolds(acc, key, v);
      ReadPairsHaveTypes(k, e, n - 1, Insert(acc, key, v), s2);
    }
  }

  /** The keys of a map read with integer keys ascend as numbers, whatever order its bindings came in. */
  lemma IntegerKeysAscend(k: Ty, e: Ty, s: bytes, i: nat, j: nat)
    requires k.TUnsigned? || k.TSigned?
    requires Decode(TMap(k, e), s).Ok?
    ensures var v := Decode(TMap(k, e), s).value;
            && v.VMap?
            && (i < j < |v.kvs| ==> v.kvs[i].key.VInt? && v.kvs[j].key.VInt? && v.kvs[i].key.i < v.kvs[j].key.i)
  {
    hide Decode;
    ReadHasType(TMap(k, e), s);
  }

  // ------------------------------------------------------------------
  // A record: values of several types, one after the other
  // ------------------------------------------------------------------

  predicate HaveTypes(vs: seq<Val>, tys: seq<Ty>) {
    |vs| == |tys| && forall i | 0 <= i < |vs| :: HasType(vs[i], tys[i])
  }

  function EncodeAll(vs: seq<Val>, tys: seq<Ty>): bytes
    requires HaveTypes(vs, tys)
  {
    if vs == [] then [] else Encode(vs[0], tys[0]) + EncodeAll(vs[1..], tys[1..])
  }

  function DecodeAll(tys: seq<Ty>, s: bytes): Parsed<seq<Val>> {
    if tys == [] then Ok([], s)
    else
      match Decode(tys[0], s)
      case Bad => Bad
      case Ok(v, s1) =>
        match DecodeAll(tys[1..], s1)
        case Bad => Bad
        case Ok(vs, s2) => Ok([v] + vs, s2)
  }

  lemma {:induction false} RecordRoundTrip(vs: seq<Val>, tys: seq<Ty>, t: bytes)
    requires |vs| == |tys| && forall i | 0 <= i < |vs| :: HasType(vs[i], tys[i])
    ensures DecodeAll(tys, EncodeAll(vs, tys) + t) == Ok(vs, t)
    decreases |vs|
  {
    hide Encode, Decode, HasType;
    if vs == [] {
      assert [] + t == t;
    } else {
      var after := EncodeAll(vs[1..], tys[1..]) + t;
      assert EncodeAll(vs, tys) + t == Encode(vs[0], tys[0]) + after;
      RoundTrip(vs[0], tys[0], after);
      RecordRoundTrip(vs[1..], tys[1..], t);
      assert vs == [vs[0]] + vs[1..];
    }
  }

  // ------------------------------------------------------------------
  // Back-patching
  // ------------------------------------------------------------------

  /** What put() makes of a storage. */
  function Patch(s: bytes, pos: nat, src: bytes): bytes
    requires pos + |src| <= |s|
  {
    s[..pos] + src + s[pos + |src|..]
  }

  lemma {:induction false} EncodeAllSplits(vs: seq<Val>, tys: seq<Ty>, i: nat)
    requires HaveTypes(vs, tys) && i <= |vs|
    ensures HaveTypes(vs[..i], tys[..i]) && HaveTypes(vs[i..], tys[i..])
    ensures EncodeAll(vs, tys) == EncodeAll(vs[..i], tys[..i]) + EncodeAll(vs[i..], tys[i..])
    decreases i
  {
    if i == 0 {
      assert vs[0..] == vs && tys[0..] == tys;
    } else {
      EncodeAllSplits(vs[1..], tys[1..], i - 1);
      assert vs[..i][1..] == vs[1..][..i - 1] && tys[..i][1..] == tys[1..][..i - 1];
      assert vs[1..][i - 1..] == vs[i..] && tys[1..][i - 1..] == tys[i..];
    }
  }

  /** Overwriting the i-th field with another value of the same encoded width changes that field alone. */
  lemma BackPatch(vs: seq<Val>, tys: seq<Ty>, i: nat, v: Val, t: bytes)
    requires HaveTypes(vs, tys) && i < |vs| && HasType(v, tys[i])
    requires |Encode(v, tys[i])| == |Encode(vs[i], tys[i])|
    ensures HaveTypes(vs[..i], tys[..i]) && HaveTypes(vs[i := v], tys)
    ensures var pos := |EncodeAll(vs[..i], tys[..i])|;
            && pos + |Encode(v, tys[i])| <= |EncodeAll(vs, tys)|
            && Patch(EncodeAll(vs, tys), pos, Encode(v, tys[i])) == EncodeAll(vs[i := v], tys)
    ensures DecodeAll(tys, EncodeAll(vs[i := v], tys) + t) == Ok(vs[i := v], t)
  {
    var us := vs[i := v];
    EncodeAllSplits(vs, tys, i);
    EncodeAllSplits(us, tys, i);
    assert us[..i] == vs[..i] && us[i..][1..] == vs[i..][1..];
    var pre, post := EncodeAll(vs[..i], tys[..i]), EncodeAll(vs[i..][1..], tys[i..][1..]);
    var old', new' := Encode(vs[i], tys[i]), Encode(v, tys[i]);
    assert EncodeAll(vs, tys) == pre + (old' + post);
    assert EncodeAll(us, tys) == pre + (new' + post);
    PatchMiddle(pre, old', new', post);
    RecordRoundTrip(us, tys, t);
  }

  lemma PatchMiddle(pre: bytes, a: bytes, b: bytes, post: bytes)
    requires |a| == |b|
    ensures Patch(pre + (a + post), |pre|, b) == pre + (b + post)
  {
  }

  predicate IsFixedWidth(ty: Ty) {
    ty.TUnsigned? || ty.TSigned? || ty.TBool?
  }

  /** All values of a fixed-width type take the same room, so any of them may be back-patched over another. */
  lemma FixedWidth(v: Val, u: Val, ty: Ty)
    requires HasType(v, ty) && HasType(u, ty) && IsFixedWidth(ty)
    ensures |Encode(v, ty)| == |Encode(u, ty)|
  {
  }
}
