/** Files apart from any disk, and whole sequences of calls on them; for either file system. */
module FileRun {
  import opened Bytes
  import opened FileSpec

  /** A write at `at` of which the first `n` bytes reached the file, or a truncation. `ring` says
      that the driver's position goes on at 0 when it reaches 2^32. */
  datatype Op = Write(f: nat, at: nat, data: seq<Byte>, n: nat, ring: bool) | Truncate(f: nat)

  /** The bytes stored so far, with zeros beyond them, and the size. */
  datatype File = File(stored: seq<Byte>, size: nat)

  function ByteOf(x: File, i: nat): Byte {
    ByteIn(x.stored, i)
  }

  /** The contents. */
  function Text(x: File): seq<Byte> {
    seq(x.size, (i: nat) => ByteOf(x, i))
  }

  predicate Proper(op: Op) {
    op.Write? ==> op.n <= |op.data|
  }

  /** The size after a call: a full count moves the end of the file, cut to 32 bits; a short one does not. */
  function Resized(size: nat, op: Op): nat {
    match op
    case Write(f, at, data, n, ring) =>
      var end := Low32(at + |data|);
      if n == |data| > 0 && end > size then end else size
    case Truncate(f) => 0
  }

  function Spread(s: seq<Byte>, at: nat, data: seq<Byte>, ring: bool): seq<Byte> {
    if ring then Ring(s, Low32(at), data) else WriteSpec(s, Low32(at), data)
  }

  function Apply(x: File, op: Op): File
    requires Proper(op)
  {
    match op
    case Write(f, at, data, n, ring) => File(Spread(x.stored, at, data[..n], ring), Resized(x.size, op))
    case Truncate(f) => File([], 0)
  }

  predicate Calls(files: map<nat, File>, ops: seq<Op>) {
    forall i :: 0 <= i < |ops| ==> ops[i].f in files && Proper(ops[i])
  }

  function Replay(files: map<nat, File>, ops: seq<Op>): map<nat, File>
    requires Calls(files, ops)
    decreases |ops|
  {
    if ops == [] then files else Replay(files[ops[0].f := Apply(files[ops[0].f], ops[0])], ops[1..])
  }

  /** Nothing but zeros is stored past the end. */
  ghost predicate Clean(x: File) {
    forall i: nat :: x.size <= i ==> ByteOf(x, i) == 0
  }

  /** Between the end of the file and `at` nothing but zeros is stored. */
  ghost predicate GapZero(x: File, at: nat) {
    forall i: nat :: x.size <= i < at ==> ByteOf(x, i) == 0
  }

  lemma SpreadByte(s: seq<Byte>, t: seq<Byte>, at: nat, data: seq<Byte>, ring: bool, i: nat)
    requires ByteIn(s, i) == ByteIn(t, i)
    ensures ByteIn(Spread(s, at, data, ring), i) == ByteIn(Spread(t, at, data, ring), i)
  {
    if ring { RingByte(s, t, Low32(at), data, i); }
  }

  /** `y` is `x` after a write of all of `data`: as on a byte array, exactly under the two conditions. */
  ghost predicate Full(x: File, y: File, at: nat, data: seq<Byte>) {
    && (Text(y) == WriteSpec(Text(x), at, data) <==> at + |data| < TWO_32 && GapZero(x, at))
    && (Clean(x) && at + |data| < TWO_32 ==> Clean(y)) && y.size < TWO_32
  }

  /** A write that returns its full count acts on the contents as on a byte array exactly when it ends
      below 2^32 and no earlier call left bytes between the end of the file and the position. */
  lemma FullWrite(x: File, op: Op)
    requires x.size < TWO_32 && op.Write? && op.n == |op.data| > 0
    ensures Full(x, Apply(x, op), op.at, op.data)
  {
    var y := Apply(x, op);
    assert op.data[..op.n] == op.data && |Text(y)| == y.size < TWO_32;
    if op.at + |op.data| < TWO_32 {
      assert y.stored == WriteSpec(x.stored, op.at, op.data);
      WrittenText(x, y, op.at, op.data);
    }
  }

  lemma WrittenText(x: File, y: File, at: nat, data: seq<Byte>)
    requires y.stored == WriteSpec(x.stored, at, data) && data != []
    requires y.size == if at + |data| > x.size then at + |data| else x.size
    ensures Text(y) == WriteSpec(Text(x), at, data) <==> GapZero(x, at)
    ensures Clean(x) ==> Clean(y)
  {
    var s, t := Text(y), WriteSpec(Text(x), at, data);
    forall i | 0 <= i < y.size
      ensures s[i] == ByteOf(y, i) == (if at <= i < at + |data| then data[i - at] else ByteOf(x, i))
      ensures t[i] == if at <= i < at + |data| then data[i - at] else if i < x.size then ByteOf(x, i) else 0
    {
    }
    if s == t {
      forall i | x.size <= i < at ensures ByteOf(x, i) == 0 {
        assert s[i] == t[i];
      }
    }
    if GapZero(x, at) { assert s == t; }
    if Clean(x) {
      forall i: nat | y.size <= i ensures ByteOf(y, i) == 0 {
        assert ByteOf(x, i) == 0;
      }
    }
  }

  /** A short write leaves the size. What it stored below the end shows; what it stored past the end
      does not, and stays behind unless it is zeros. */
  lemma ShortWrite(x: File, op: Op)
    requires Clean(x) && op.Write? && op.n < |op.data|
    ensures var r := Spread(Text(x), op.at, op.data[..op.n], op.ring);
      x.size <= |r| && Text(Apply(x, op)) == r[..x.size]
    ensures Clean(Apply(x, op)) <==>
      forall i: nat :: x.size <= i ==> ByteIn(Spread([], op.at, op.data[..op.n], op.ring), i) == 0
  {
    var d, y := op.data[..op.n], Apply(x, op);
    var r, none: seq<Byte> := Spread(Text(x), op.at, d, op.ring), [];
    forall i: nat | i < x.size ensures ByteOf(y, i) == r[i] {
      SpreadByte(x.stored, Text(x), op.at, d, op.ring, i);
    }
    forall i: nat | x.size <= i ensures ByteOf(y, i) == ByteIn(Spread(none, op.at, d, op.ring), i) {
      assert ByteOf(x, i) == 0;
      SpreadByte(x.stored, none, op.at, d, op.ring, i);
    }
  }

  /** What a write cut short leaves behind, a later full write shows: from any file, a byte stored
      past the end appears in the gap of a write right behind it. */
  lemma Leftover(x: File, op: Op, i: nat, b: Byte)
    requires x.size < TWO_32 && op.Write? && op.n < |op.data|
    requires x.size <= i < TWO_32 - 2 && ByteOf(Apply(x, op), i) != 0
    ensures var y := Apply(x, op); var late := Write(op.f, i + 1, [b], 1, op.ring);
      && y.size == x.size && Text(Apply(y, late)) != WriteSpec(Text(y), i + 1, [b])
      && |Text(Apply(y, late))| == i + 2 && Text(Apply(y, late))[i] != 0
  {
    LeftoverShows(Apply(x, op), op.f, i, b, op.ring);
  }

  lemma LeftoverShows(y: File, f: nat, i: nat, b: Byte, ring: bool)
    requires y.size <= i < TWO_32 - 2 && ByteOf(y, i) != 0
    ensures var late := Write(f, i + 1, [b], 1, ring);
      && Text(Apply(y, late)) != WriteSpec(Text(y), i + 1, [b])
      && |Text(Apply(y, late))| == i + 2 && Text(Apply(y, late))[i] != 0
  {
    var late := Write(f, i + 1, [b], 1, ring);
    assert late.data[..1] == [b];
    assert Apply(y, late).stored == WriteSpec(y.stored, i + 1, [b]);
    assert WriteSpec(Text(y), i + 1, [b])[i] == 0;
  }

  function Sevens(n: nat): seq<Byte> {
    seq(n, _ => 7)
  }

  /** With room for one block of `c` bytes, `c + 1` sevens at the front of an empty file are cut short
      and leave it empty; a 9 at `k`, inside that block or right behind it, then follows sevens. */
  lemma LeftoverSevens(c: nat, k: nat, ring: bool)
    requires 0 < k <= c < TWO_32 - 1
    ensures var y := Apply(File([], 0), Write(0, 0, Sevens(c + 1), c, ring));
      && Text(y) == [] && Text(Apply(y, Write(0, k, [9], 1, ring))) == Sevens(k) + [9]
      && WriteSpec(Text(y), k, [9]) == Zeros(k) + [9]
  {
    var none: seq<Byte> := [];
    var short, late := Write(0, 0, Sevens(c + 1), c, ring), Write(0, k, [9], 1, ring);
    assert short.data[..c] == Sevens(c) && late.data[..1] == [9];
    var y := Apply(File(none, 0), short);
    assert y.stored == WriteSpec(none, 0, Sevens(c)) == Sevens(c);
    assert Apply(y, late).stored == WriteSpec(Sevens(c), k, [9]);
    assert WriteSpec(none, k, [9]) == Zeros(k) + [9];
  }

  /** A truncation, a write of nothing, or a write that returned its full count and ended below 2^32. */
  predicate Completed(op: Op) {
    op.Write? ==> op.n == |op.data| && (op.data == [] || op.at + |op.data| < TWO_32)
  }

  ghost predicate AllClean(files: map<nat, File>) {
    forall f :: f in files ==> Clean(files[f]) && files[f].size < TWO_32
  }

  function Texts(files: map<nat, File>): map<nat, seq<Byte>> {
    map f | f in files :: Text(files[f])
  }

  /** The calls, carried out on byte arrays. */
  function Edited(texts: map<nat, seq<Byte>>, ops: seq<Op>): map<nat, seq<Byte>>
    requires forall i :: 0 <= i < |ops| ==> ops[i].f in texts
    decreases |ops|
  {
    if ops == [] then texts else Edited(texts[ops[0].f := Edit(texts[ops[0].f], ops[0])], ops[1..])
  }

  function Edit(text: seq<Byte>, op: Op): seq<Byte> {
    match op
    case Write(f, at, data, n, ring) => if data == [] then text else WriteSpec(text, at, data)
    case Truncate(f) => []
  }

  lemma CompletedStep(x: File, op: Op)
    requires Clean(x) && x.size < TWO_32 && Completed(op)
    ensures Text(Apply(x, op)) == Edit(Text(x), op) && Clean(Apply(x, op)) && Apply(x, op).size < TWO_32
  {
    if op.Write? && op.data != [] {
      FullWrite(x, op);
      assert GapZero(x, op.at) by {
        forall i: nat | x.size <= i < op.at ensures ByteOf(x, i) == 0 {
        }
      }
    } else if op.Write? {
      forall i: nat ensures ByteOf(Apply(x, op), i) == ByteOf(x, i) {
      }
    }
  }

  /** After any sequence of completed calls every file holds what the byte arrays hold, with zeros in the gaps. */
  lemma {:induction false} CompletedRun(files: map<nat, File>, ops: seq<Op>)
    requires AllClean(files) && Calls(files, ops) && forall i :: 0 <= i < |ops| ==> Completed(ops[i])
    ensures AllClean(Replay(files, ops)) && Texts(Replay(files, ops)) == Edited(Texts(files), ops)
    decreases |ops|
  {
    if ops != [] {
      var f, x := ops[0].f, Apply(files[ops[0].f], ops[0]);
      CompletedStep(files[f], ops[0]);
      assert Texts(files[f := x]) == Texts(files)[f := Text(x)];
      CompletedRun(files[f := x], ops[1..]);
    }
  }
}
