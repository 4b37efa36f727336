/** The NOR memory array: programming clears bits, erasing sets a whole range to FFh. */
module FlashMemory {

  const ERASED: bv8 := 0xFF

  /** mem with data programmed at addr. */
  function Programmed(mem: seq<bv8>, addr: nat, data: seq<bv8>): (r: seq<bv8>)
    requires addr + |data| <= |mem|
    ensures |r| == |mem|
  {
    seq(|mem|, i requires 0 <= i < |mem| => if addr <= i < addr + |data| then mem[i] & data[i - addr] else mem[i])
  }

  /** mem with [lo, hi) erased. */
  function Erased(mem: seq<bv8>, lo: nat, hi: nat): (r: seq<bv8>)
    ensures |r| == |mem|
  {
    seq(|mem|, i requires 0 <= i < |mem| => if lo <= i < hi then ERASED else mem[i])
  }

  lemma ProgrammedNothing(mem: seq<bv8>, addr: nat)
    requires addr <= |mem|
    ensures Programmed(mem, addr, []) == mem
  {
  }

  /** Programming in two pieces is programming at once. */
  lemma ProgrammedAppend(mem: seq<bv8>, addr: nat, a: seq<bv8>, b: seq<bv8>)
    requires addr + |a| + |b| <= |mem|
    ensures Programmed(Programmed(mem, addr, a), addr + |a|, b) == Programmed(mem, addr, a + b)
  {
  }

  /** One more piece of data[..upto], after its first done bytes. */
  lemma ProgrammedNext(mem: seq<bv8>, addr: nat, data: seq<bv8>, done: nat, upto: nat, n: nat)
    requires done + n <= upto <= |data| && addr + |data| <= |mem|
    ensures Programmed(Programmed(mem, addr, data[..done]), addr + done, data[done..upto][..n])
         == Programmed(mem, addr, data[..done + n])
  {
    assert data[..done] + data[done..upto][..n] == data[..done + n];
    ProgrammedAppend(mem, addr, data[..done], data[done..upto][..n]);
  }

  lemma ErasedAppend(mem: seq<bv8>, lo: nat, mid: nat, hi: nat)
    requires lo <= mid <= hi
    ensures Erased(Erased(mem, lo, mid), mid, hi) == Erased(mem, lo, hi)
  {
  }

  lemma ErasedNothing(mem: seq<bv8>, lo: nat)
    ensures Erased(mem, lo, lo) == mem
  {
  }

  /** Data programmed into an erased range reads back exactly; bytes outside the erased range are untouched. */
  lemma EraseThenProgram(mem: seq<bv8>, lo: nat, hi: nat, addr: nat, data: seq<bv8>)
    requires lo <= addr && addr + |data| <= hi <= |mem|
    ensures var m := Programmed(Erased(mem, lo, hi), addr, data);
      && m[addr..addr + |data|] == data
      && forall i | 0 <= i < |mem| && !(lo <= i < hi) :: m[i] == mem[i]
  {
    var m := Programmed(Erased(mem, lo, hi), addr, data);
    forall j | 0 <= j < |data| ensures m[addr + j] == data[j] {
      AndOnes(data[j]);
    }
  }

  lemma AndOnes(b: bv8)
    ensures ERASED & b == b
  {
  }

  /** Programming reads back exactly where the old contents had every bit the data needs, and only there. */
  lemma ProgramReadsBackIff(mem: seq<bv8>, addr: nat, data: seq<bv8>)
    requires addr + |data| <= |mem|
    ensures Programmed(mem, addr, data)[addr..addr + |data|] == data
      <==> forall j | 0 <= j < |data| :: mem[addr + j] & data[j] == data[j]
  {
    var r := Programmed(mem, addr, data);
    assert forall j | 0 <= j < |data| :: r[addr..addr + |data|][j] == mem[addr + j] & data[j];
  }
}
