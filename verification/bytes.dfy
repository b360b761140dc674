/** Bytes, fixed-width little-endian fields, and C structs as rows of such fields. */
module Bytes {
  type Byte = n: nat | n < 256
  type U24 = n: nat | n < 0x100_0000
  type U32 = n: nat | n < 0x1_0000_0000
  type U64 = n: nat | n < 0x1_0000_0000_0000_0000

  datatype Option<+T> = None | Some(value: T)

  function Zeros(n: nat): (s: seq<Byte>)
    ensures |s| == n
  {
    seq(n, _ => 0)
  }

  function Pow256(w: nat): (p: nat)
    ensures p >= 1
  {
    if w == 0 then 1 else 256 * Pow256(w - 1)
  }

  lemma FieldWidths()
    ensures Pow256(1) == 0x100 && Pow256(3) == 0x100_0000
    ensures Pow256(4) == 0x1_0000_0000
    ensures Pow256(8) == 0x1_0000_0000_0000_0000
  {
    assert Pow256(2) == 0x1_0000;
    assert Pow256(4) == 256 * Pow256(3);
    assert Pow256(5) == 256 * Pow256(4);
    assert Pow256(6) == 256 * Pow256(5);
    assert Pow256(7) == 256 * Pow256(6);
  }

  /** Storing v into a w-byte little-endian field; bits that do not fit are dropped. */
  function LE(v: nat, w: nat): (s: seq<Byte>)
    ensures |s| == w
  {
    if w == 0 then [] else [v % 256] + LE(v / 256, w - 1)
  }

  function UnLE(s: seq<Byte>): (v: nat)
    ensures v < Pow256(|s|)
  {
    if s == [] then 0 else s[0] + 256 * UnLE(s[1..])
  }

  lemma {:induction false} LERoundTrip(v: nat, w: nat)
    requires v < Pow256(w)
    ensures UnLE(LE(v, w)) == v
  {
    if w > 0 {
      LERoundTrip(v / 256, w - 1);
      assert LE(v, w)[1..] == LE(v / 256, w - 1);
    }
  }

  lemma {:induction false} UnLERoundTrip(s: seq<Byte>)
    ensures LE(UnLE(s), |s|) == s
  {
    if s != [] {
      UnLERoundTrip(s[1..]);
      assert UnLE(s) / 256 == UnLE(s[1..]) && UnLE(s) % 256 == s[0];
    }
  }

  /** Fields of one width that read the same are the same bytes. */
  lemma UnLESame(x: seq<Byte>, y: seq<Byte>)
    requires |x| == |y|
    ensures UnLE(x) == UnLE(y) <==> x == y
  {
    UnLERoundTrip(x);
    UnLERoundTrip(y);
  }

  /** Total size of a struct whose fields have the given widths. */
  function Size(widths: seq<nat>): nat {
    if widths == [] then 0 else widths[0] + Size(widths[1..])
  }

  ghost predicate Fits(vals: seq<nat>, widths: seq<nat>) {
    |vals| == |widths| && forall i :: 0 <= i < |vals| ==> vals[i] < Pow256(widths[i])
  }

  function Pack(vals: seq<nat>, widths: seq<nat>): (s: seq<Byte>)
    requires |vals| == |widths|
    ensures |s| == Size(widths)
  {
    if vals == [] then [] else LE(vals[0], widths[0]) + Pack(vals[1..], widths[1..])
  }

  function Unpack(widths: seq<nat>, s: seq<Byte>): (vals: seq<nat>)
    requires |s| >= Size(widths)
    ensures Fits(vals, widths)
  {
    if widths == [] then [] else [UnLE(s[..widths[0]])] + Unpack(widths[1..], s[widths[0]..])
  }

  lemma {:induction false} UnpackPack(vals: seq<nat>, widths: seq<nat>, tail: seq<Byte>)
    requires Fits(vals, widths)
    ensures Unpack(widths, Pack(vals, widths) + tail) == vals
  {
    hide LE, UnLE, Pow256, Size;
    if vals != [] {
      var w := widths[0];
      var first, rest := LE(vals[0], w), Pack(vals[1..], widths[1..]);
      SplitFront(first, rest, tail);
      LERoundTrip(vals[0], w);
      UnpackPack(vals[1..], widths[1..], tail);
      assert vals == [vals[0]] + vals[1..];
    }
  }

  lemma SplitFront(x: seq<Byte>, y: seq<Byte>, z: seq<Byte>)
    ensures (x + y + z)[..|x|] == x && (x + y + z)[|x|..] == y + z
  {
  }

  lemma PackCons(v: nat, rest: seq<nat>, widths: seq<nat>)
    requires |widths| == 1 + |rest|
    ensures Pack([v] + rest, widths) == LE(v, widths[0]) + Pack(rest, widths[1..])
  {
    assert ([v] + rest)[1..] == rest;
  }

  lemma {:induction false} PackUnpack(widths: seq<nat>, s: seq<Byte>)
    requires |s| >= Size(widths)
    ensures Pack(Unpack(widths, s), widths) == s[..Size(widths)]
  {
    if widths != [] {
      var w := widths[0];
      var v, rest := UnLE(s[..w]), Unpack(widths[1..], s[w..]);
      PackUnpack(widths[1..], s[w..]);
      UnLERoundTrip(s[..w]);
      PackCons(v, rest, widths);
      assert s[..w] + s[w..][..Size(widths[1..])] == s[..Size(widths)];
    }
  }

  /** Reading a struct looks at its own bytes only. */
  lemma UnpackPrefix(widths: seq<nat>, s: seq<Byte>, t: seq<Byte>)
    requires |s| >= Size(widths) && |t| >= Size(widths) && s[..Size(widths)] == t[..Size(widths)]
    ensures Unpack(widths, s) == Unpack(widths, t)
  {
    hide Pack, Unpack;
    var n := Size(widths);
    PackUnpack(widths, s);
    UnpackPack(Unpack(widths, s), widths, t[n..]);
    assert t == t[..n] + t[n..];
  }

  /** Where the i-th field of a struct starts. */
  function Offset(widths: seq<nat>, i: nat): nat
    requires i <= |widths|
    decreases i
  {
    if i == 0 then 0 else widths[0] + Offset(widths[1..], i - 1)
  }

  lemma {:induction false} OffsetFits(widths: seq<nat>, i: nat)
    requires i < |widths|
    ensures Offset(widths, i) + widths[i] <= Size(widths)
    decreases i
  {
    if i > 0 {
      OffsetFits(widths[1..], i - 1);
    }
  }

  lemma SliceOfRest(s: seq<Byte>, w: nat, a: nat, b: nat)
    requires w + a <= w + b <= |s|
    ensures s[w..][a..b] == s[w + a..w + b]
  {
  }

  /** A field is the little-endian value of its own bytes. */
  lemma {:induction false} FieldAt(widths: seq<nat>, s: seq<Byte>, i: nat)
    requires |s| >= Size(widths) && i < |widths|
    ensures Offset(widths, i) + widths[i] <= |s|
    ensures Unpack(widths, s)[i] == UnLE(s[Offset(widths, i)..Offset(widths, i) + widths[i]])
    decreases i
  {
    hide UnLE, Pow256, Fits;
    OffsetFits(widths, i);
    var w := widths[0];
    if i == 0 {
      assert s[0..w] == s[..w];
    } else {
      var at := Offset(widths[1..], i - 1);
      FieldAt(widths[1..], s[w..], i - 1);
      SliceOfRest(s, w, at, at + widths[i]);
    }
  }

  /** And a field is stored in its own bytes. */
  lemma {:induction false} PackAt(vals: seq<nat>, widths: seq<nat>, i: nat)
    requires |vals| == |widths| && i < |widths|
    ensures Offset(widths, i) + widths[i] <= Size(widths)
    ensures Pack(vals, widths)[Offset(widths, i)..Offset(widths, i) + widths[i]] == LE(vals[i], widths[i])
    decreases i
  {
    hide LE;
    OffsetFits(widths, i);
    var w, s := widths[0], Pack(vals, widths);
    if i > 0 {
      var at := Offset(widths[1..], i - 1);
      PackAt(vals[1..], widths[1..], i - 1);
      assert s[w..] == Pack(vals[1..], widths[1..]);
      SliceOfRest(s, w, at, at + widths[i]);
    }
  }

  lemma OffsetStart(w: seq<nat>)
    ensures Offset(w, 0) == 0
  {
  }

  /** Offsets one after the other. */
  lemma {:induction false} OffsetNext(widths: seq<nat>, i: nat)
    requires i < |widths|
    ensures Offset(widths, i + 1) == Offset(widths, i) + widths[i]
    decreases i
  {
    if i > 0 {
      OffsetNext(widths[1..], i - 1);
    }
  }

  /** The concatenation of a list of byte strings. */
  function Concat(parts: seq<seq<Byte>>): (s: seq<Byte>) {
    if parts == [] then [] else parts[0] + Concat(parts[1..])
  }

  lemma {:induction false} ConcatAppend(a: seq<seq<Byte>>, b: seq<seq<Byte>>)
    ensures Concat(a + b) == Concat(a) + Concat(b)
  {
    if a == [] {
      assert a + b == b;
    } else {
      ConcatAppend(a[1..], b);
      assert (a + b)[0] == a[0] && (a + b)[1..] == a[1..] + b;
      Regroup(a[0], Concat(a[1..]), Concat(b));
    }
  }

  lemma Regroup(x: seq<Byte>, y: seq<Byte>, z: seq<Byte>)
    ensures x + (y + z) == (x + y) + z
  {
  }
}
