/** Scripts of writer calls: both storage back ends compute the same abstract bits. */
module BitScripts {
  import opened Bits
  import opened BitWriting

  datatype Op =
    | Write(n: nat, v: nat)
    | Update(n: nat, v: nat, at: nat)
    | Rewind(to: nat)
    | Jump
    | WriteBytes(data: seq<byte>)

  /** What each call demands of its caller at bit position `position`. */
  predicate Legal(op: Op, position: nat) {
    match op
    case Write(n, v) => n <= MAX_BITS_PER_WRITE && v < Pow2(n)
    case Update(n, v, at) => n <= 32 && v < U32 && at + n <= position
    case Rewind(to) => to <= position
    case Jump => true
    case WriteBytes(_) => position % 8 == 0
  }

  /** The effect of a call on the sequence of bits written so far. */
  function Apply(op: Op, c: bits): bits
    requires Legal(op, |c|)
  {
    match op
    case Write(n, v) => c + ToBits(n, v)
    case Update(n, v, at) => c[..at] + ToBits(n, v) + c[at + n..]
    case Rewind(to) => c[..to]
    case Jump => Padded(c)
    case WriteBytes(data) => c + BytesToBits(data)
  }

  predicate LegalScript(ops: seq<Op>, c: bits)
    decreases |ops|
  {
    ops == [] || (Legal(ops[0], |c|) && LegalScript(ops[1..], Apply(ops[0], c)))
  }

  function Run(ops: seq<Op>, c: bits): bits
    requires LegalScript(ops, c)
    decreases |ops|
  {
    if ops == [] then c else Run(ops[1..], Apply(ops[0], c))
  }

  /** A call needs bytes that a buffer of `length` bytes does not have: a write its headroom, every
      other call the last byte it touches. */
  predicate Overflows(op: Op, position: nat, length: nat) {
    match op
    case Write(_, _) => position / 8 + WRITE_SLACK > length
    case Update(n, _, at) => n > 0 && (at + n - 1) / 8 >= length
    case Rewind(to) => to / 8 >= length
    case Jump => Aligned(position) / 8 >= length
    case WriteBytes(data) => position / 8 + |data| >= length
  }

  predicate ScriptOverflows(ops: seq<Op>, c: bits, length: nat)
    requires LegalScript(ops, c)
    decreases |ops|
  {
    ops != [] && (Overflows(ops[0], |c|, length) || ScriptOverflows(ops[1..], Apply(ops[0], c), length))
  }

  /** The largest position a script reaches. */
  function Reach(ops: seq<Op>, c: bits): nat
    requires LegalScript(ops, c)
    decreases |ops|
  {
    if ops == [] then |c|
    else
      var later := Reach(ops[1..], Apply(ops[0], c));
      if later < |c| then |c| else later
  }

  /** Headroom past the largest position a script reaches is enough. */
  lemma {:induction false} HeadroomSuffices(ops: seq<Op>, c: bits, length: nat)
    requires LegalScript(ops, c) && Reach(ops, c) / 8 + WRITE_SLACK <= length
    ensures !ScriptOverflows(ops, c, length)
    decreases |ops|
  {
    if ops != [] {
      var d := Apply(ops[0], c);
      HeadroomSuffices(ops[1..], d, length);
      assert |d| <= Reach(ops[1..], d);
    }
  }

  /** No call of the script reaches back below bit `floor`. */
  predicate StaysAbove(ops: seq<Op>, floor: nat) {
    forall i :: 0 <= i < |ops| ==>
      match ops[i]
      case Update(_, _, at) => floor <= at
      case Rewind(to) => floor <= to
      case _ => true
  }

  /** Bits before the starting position survive any script that does not reach back to them. */
  lemma {:induction false} RunPreserves(ops: seq<Op>, c: bits, floor: nat)
    requires LegalScript(ops, c) && floor <= |c| && StaysAbove(ops, floor)
    ensures floor <= |Run(ops, c)| && Run(ops, c)[..floor] == c[..floor]
    decreases |ops|
  {
    if ops != [] {
      var d := Apply(ops[0], c);
      assert floor <= |d| && d[..floor] == c[..floor];
      RunPreserves(ops[1..], d, floor);
    }
  }

  method ApplyFixed(w: BitWriter, op: Op)
    requires w.Valid() && Legal(op, w.position)
    modifies w, w.storage
    ensures w.Valid() && w.contents == Apply(op, old(w.contents))
    ensures w.overflowed <==> old(w.overflowed) || Overflows(op, |old(w.contents)|, w.storage.Length)
  {
    match op {
      case Write(n, v) => w.Write(n, v);
      case Update(n, v, at) => w.Update(n, v, at);
      case Rewind(to) => w.Rewind(to);
      case Jump => w.JumpToByteBoundary();
      case WriteBytes(data) => w.WriteBytes(data);
    }
  }

  /** The slice writer ends with the bits of the script in its bytes, unless one of the calls lacked
      the bytes it needs, and then it says so. */
  method RunFixed(w: BitWriter, ops: seq<Op>)
    requires w.Valid() && LegalScript(ops, w.contents)
    modifies w, w.storage
    ensures w.Valid() && w.contents == Run(ops, old(w.contents))
    ensures w.overflowed <==> old(w.overflowed) || ScriptOverflows(ops, old(w.contents), w.storage.Length)
    ensures !w.overflowed ==> w.Kept()
  {
    hide Legal, Apply, Overflows, Represents;
    for i := 0 to |ops|
      invariant w.Valid() && LegalScript(ops[i..], w.contents)
      invariant Run(ops[i..], w.contents) == Run(ops, old(w.contents))
      invariant w.overflowed || ScriptOverflows(ops[i..], w.contents, w.storage.Length)
                <==> old(w.overflowed) || ScriptOverflows(ops, old(w.contents), w.storage.Length)
    {
      assert ops[i..][0] == ops[i] && ops[i..][1..] == ops[i + 1..];
      ApplyFixed(w, ops[i]);
    }
    if !w.overflowed { StaysKept(w); }
  }

  method ApplyGrowing(w: VecBitWriter, op: Op)
    requires w.Valid() && Legal(op, w.position)
    modifies w
    ensures w.Valid() && w.contents == Apply(op, old(w.contents))
  {
    match op {
      case Write(n, v) => w.Write(n, v);
      case Update(n, v, at) => w.Update(n, v, at);
      case Rewind(to) => w.Rewind(to);
      case Jump => w.JumpToByteBoundary();
      case WriteBytes(data) => w.WriteBytes(data);
    }
  }

  method RunGrowing(w: VecBitWriter, ops: seq<Op>)
    requires w.Valid() && LegalScript(ops, w.contents)
    modifies w
    ensures w.Valid() && w.contents == Run(ops, old(w.contents))
  {
    for i := 0 to |ops|
      invariant w.Valid() && LegalScript(ops[i..], w.contents)
      invariant Run(ops[i..], w.contents) == Run(ops, old(w.contents))
    {
      assert ops[i..][0] == ops[i] && ops[i..][1..] == ops[i + 1..];
      ApplyGrowing(w, ops[i]);
    }
  }

  /** The same script on a slice and on a vector that start from the same bits: the vector never
      overflows, and if the slice does not either, both stop at the same position with the same
      bits and the same complete bytes below it. */
  method RunBoth(fixed: BitWriter, growing: VecBitWriter, ops: seq<Op>)
    requires fixed.Valid() && growing.Valid() && !fixed.overflowed
    requires fixed.contents == growing.contents && LegalScript(ops, fixed.contents)
    modifies fixed, fixed.storage, growing
    ensures !growing.overflowed && growing.position == fixed.position
    ensures fixed.overflowed <==> ScriptOverflows(ops, old(fixed.contents), fixed.storage.Length)
    ensures !fixed.overflowed ==>
              var n := fixed.position / 8;
              && n <= fixed.storage.Length && n <= |growing.storage|
              && fixed.storage[..n] == growing.storage[..n]
              && fixed.position <= 8 * fixed.storage.Length && fixed.position <= 8 * |growing.storage|
              && BytesToBits(fixed.storage[..])[..fixed.position] == BytesToBits(growing.storage)[..fixed.position]
  {
    RunFixed(fixed, ops);
    RunGrowing(growing, ops);
    if !fixed.overflowed {
      RepresentationsAgree(fixed.storage[..], growing.storage, fixed.position, fixed.contents);
    }
  }
}
