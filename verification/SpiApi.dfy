/** The requests an SPI controller is given: lists of transfers, and operations made of command, address, dummy and data. */
module SpiApi {
  import opened Memory
  import opened PowerOfTwo

  datatype Direction = In | Out

  /** struct ufprog_spi_transfer; an outgoing transfer carries its bytes,
      of whatever type a controller's model uses. */
  datatype Transfer<B> = Transfer(dir: Direction, width: nat, dtr: bool, end: bool, len: nat, tx: seq<B>) {
    predicate Valid() { dir.Out? ==> |tx| == len }

    /** What a controller with one line at single rate can do. */
    predicate Plain() { width <= 1 && !dtr }
  }

  /** One part of an operation: its length in bytes, the lines it uses, double transfer rate. */
  datatype Part = Part(len: nat, width: nat, dtr: bool)

  datatype MemOp = MemOp(
    cmd: Part, opcode: nat, addr: Part, addrVal: nat, dummy: Part,
    data: Part, dir: Direction, tx: seq<Byte>)
  {
    /** Field widths of the source, and a transmit buffer of the announced length. */
    predicate Valid() {
      && cmd.len <= 4 && addr.len <= 8 && dummy.len < 0x100
      && (dir.Out? ==> |tx| == data.len)
    }
  }

  function Pow256(n: nat): (r: nat)
    ensures r > 0
  {
    if n == 0 then 1 else 256 * Pow256(n - 1)
  }

  /** Byte number i of a value, the lowest being number zero. */
  function ByteOf(val: nat, i: nat): Byte { val / Pow256(i) % 256 }

  /** The len low bytes of a value, highest first. */
  function BigEndian(val: nat, len: nat): (r: seq<Byte>)
    ensures |r| == len
  {
    seq(len, i requires 0 <= i < len => ByteOf(val, len - i - 1))
  }

  /** The len low bytes of a value, lowest first. */
  function LittleEndian(val: nat, len: nat): (r: seq<Byte>)
    ensures |r| == len
  {
    seq(len, i requires 0 <= i < len => ByteOf(val, i))
  }

  /** The number spelled by bytes, lowest first. */
  function LittleValue(s: seq<Byte>): nat {
    if s == [] then 0 else s[0] + 256 * LittleValue(s[1..])
  }

  /** The number spelled by bytes, highest first. */
  function BigValue(s: seq<Byte>): nat {
    if s == [] then 0 else 256 * BigValue(s[..|s| - 1]) + s[|s| - 1]
  }

  lemma ByteOfShift(val: nat, i: nat)
    ensures ByteOf(val, i + 1) == ByteOf(val / 256, i)
  {
    DivDiv(val, Pow256(i));
  }

  lemma DivDiv(x: nat, p: nat)
    requires p > 0
    ensures 256 * p > 0 && x / (256 * p) == x / 256 / p
  {
    var q, r := x / 256 / p, x / 256 % p;
    assert x == 256 * (q * p) + 256 * r + x % 256;
    assert 256 * (q * p) == q * (256 * p);
    DivModUnique(x, 256 * p, q, 256 * r + x % 256);
  }

  lemma LowByte(val: nat)
    ensures ByteOf(val, 0) == val % 256
  {
    var p := Pow256(0);
    assert p == 1 && val / p == val;
  }

  lemma LittleTail(val: nat, len: nat)
    requires len > 0
    ensures LittleEndian(val, len) == [ByteOf(val, 0)] + LittleEndian(val / 256, len - 1)
  {
    hide ByteOf;
    var whole, tail := LittleEndian(val, len), LittleEndian(val / 256, len - 1);
    forall i: nat | i < len - 1 ensures whole[1..][i] == tail[i] {
      ByteOfShift(val, i);
    }
    assert whole[1..] == tail;
  }

  lemma BigTail(val: nat, len: nat)
    requires len > 0
    ensures BigEndian(val, len) == BigEndian(val / 256, len - 1) + [ByteOf(val, 0)]
  {
    hide ByteOf;
    forall i: nat | i < len - 1 ensures BigEndian(val, len)[i] == BigEndian(val / 256, len - 1)[i] {
      ByteOfShift(val, len - 2 - i);
    }
  }

  /** The bytes spell the value as far as they reach. */
  lemma {:induction false} LittleEndianValue(val: nat, len: nat)
    ensures LittleValue(LittleEndian(val, len)) == val % Pow256(len)
  {
    hide ByteOf, LittleEndian;
    if len > 0 {
      LittleTail(val, len);
      LittleEndianValue(val / 256, len - 1);
      LowByte(val);
      ModSplit(val, Pow256(len - 1));
      assert LittleEndian(val, len)[1..] == LittleEndian(val / 256, len - 1);
    }
  }

  lemma {:induction false} BigEndianValue(val: nat, len: nat)
    ensures BigValue(BigEndian(val, len)) == val % Pow256(len)
  {
    hide ByteOf, BigEndian;
    if len > 0 {
      BigTail(val, len);
      BigEndianValue(val / 256, len - 1);
      LowByte(val);
      ModSplit(val, Pow256(len - 1));
      assert BigEndian(val, len)[..len - 1] == BigEndian(val / 256, len - 1);
    }
  }

  lemma ModSplit(x: nat, p: nat)
    requires p > 0
    ensures 256 * p > 0 && x % (256 * p) == x % 256 + 256 * (x / 256 % p)
  {
    var q, r := x / 256 / p, x / 256 % p;
    assert x == 256 * (q * p + r) + x % 256;
    assert 256 * (q * p + r) == q * (256 * p) + 256 * r;
    DivModUnique(x, 256 * p, q, 256 * r + x % 256);
  }
}
