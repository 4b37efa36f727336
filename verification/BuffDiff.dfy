/** Comparing two buffers a machine word at a time. */
module BuffDiff {
  import opened PowerOfTwo

  const WORD := 8

  /** The reference verdict: pos is the first of the first len positions where the buffers differ, if there is one. */
  predicate Verdict(a: seq<bv8>, b: seq<bv8>, len: nat, same: bool, pos: nat) {
    && len <= |a| && len <= |b|
    && (same ==> a[..len] == b[..len])
    && (!same ==> pos < len && a[pos] != b[pos] && a[..pos] == b[..pos])
  }

  /** There is only one such verdict. */
  lemma VerdictUnique(a: seq<bv8>, b: seq<bv8>, len: nat, s1: bool, p1: nat, s2: bool, p2: nat)
    requires Verdict(a, b, len, s1, p1) && Verdict(a, b, len, s2, p2)
    ensures s1 == s2 && (!s1 ==> p1 == p2)
  {
  }

  /** buf_diff_byte on buffers starting at offset off. */
  method ByteDiff(a: seq<bv8>, b: seq<bv8>, off: nat, len: nat) returns (same: bool, pos: nat)
    requires off + len <= |a| && off + len <= |b|
    ensures Verdict(a[off..], b[off..], len, same, pos)
  {
    var n := 0;
    while n < len
      invariant n <= len && a[off..][..n] == b[off..][..n]
    {
      if a[off + n] != b[off + n] {
        return false, n;
      }
      n := n + 1;
    }
    return true, 0;
  }

  /** buf_diff_sizeptr: whole words, and the byte compare inside the first word that differs. */
  method WordDiff(a: seq<bv8>, b: seq<bv8>, off: nat, len: nat) returns (same: bool, pos: nat)
    requires off + len <= |a| && off + len <= |b| && len % WORD == 0
    ensures Verdict(a[off..], b[off..], len, same, pos)
  {
    var n := 0;
    while n < len
      invariant n <= len && n % WORD == 0 && a[off..][..n] == b[off..][..n]
      decreases len - n
    {
      if a[off + n..off + n + WORD] != b[off + n..off + n + WORD] {
        var wordSame, p := ByteDiff(a, b, off + n, WORD);
        assert Verdict(a[off..], b[off..], n, true, 0);
        JoinVerdict(a, b, off, n, WORD, wordSame, p);
        assert a[off + n..][..WORD] == a[off + n..off + n + WORD] && b[off + n..][..WORD] == b[off + n..off + n + WORD];
        LongerVerdict(a[off..], b[off..], n + WORD, len, n + p);
        return false, n + p;
      }
      JoinEqual(a, b, off, n, WORD);
      n := n + WORD;
    }
    return true, 0;
  }

  lemma JoinEqual(a: seq<bv8>, b: seq<bv8>, off: nat, n: nat, m: nat)
    requires off + n + m <= |a| && off + n + m <= |b|
    requires a[off..][..n] == b[off..][..n] && a[off + n..off + n + m] == b[off + n..off + n + m]
    ensures a[off..][..n + m] == b[off..][..n + m]
  {
    assert a[off..][..n + m] == a[off..][..n] + a[off + n..off + n + m];
    assert b[off..][..n + m] == b[off..][..n] + b[off + n..off + n + m];
  }

  /** After n equal bytes, the verdict on what follows is the verdict on both. */
  lemma JoinVerdict(a: seq<bv8>, b: seq<bv8>, off: nat, n: nat, m: nat, same: bool, p: nat)
    requires off + n + m <= |a| && off + n + m <= |b| && Verdict(a[off..], b[off..], n, true, 0)
    requires Verdict(a[off + n..], b[off + n..], m, same, p)
    ensures Verdict(a[off..], b[off..], n + m, same, if same then 0 else n + p)
  {
    var q := if same then m else p;
    assert a[off + n..off + n + q] == a[off + n..][..q] && b[off + n..off + n + q] == b[off + n..][..q];
    JoinEqual(a, b, off, n, q);
    if !same {
      assert a[off..][n + p] == a[off + n..][p] && b[off..][n + p] == b[off + n..][p];
    }
  }

  lemma LongerVerdict(a: seq<bv8>, b: seq<bv8>, len: nat, more: nat, pos: nat)
    requires Verdict(a, b, len, false, pos) && len <= more <= |a| && more <= |b|
    ensures Verdict(a, b, more, false, pos)
  {
  }

  /** The rest of bufdiff after the head: whole words, then the bytes left over. */
  method AlignedDiff(a: seq<bv8>, b: seq<bv8>, off: nat, len0: nat) returns (same: bool, pos: nat)
    requires off + len0 <= |a| && off + len0 <= |b|
    ensures Verdict(a[off..], b[off..], len0, same, pos)
  {
    hide Verdict;
    var left := len0 % WORD;
    var len := len0 - left;
    same, pos := true, 0;
    NoBytes(a, b, off);
    if len != 0 {
      same, pos := WordDiff(a, b, off, len);
      if !same {
        LongerVerdict(a[off..], b[off..], len, len0, pos);
        return;
      }
      AnyPos(a[off..], b[off..], len, pos, 0);
    }
    if left == 0 {
      return true, 0;
    }
    var cmppos;
    same, cmppos := ByteDiff(a, b, off + len, left);
    JoinVerdict(a, b, off, len, left, same, cmppos);
    pos := if same then 0 else len + cmppos;
  }

  /** bufdiff on buffers at these addresses; pos is stored where the caller gave a place for it. With the buffers equally
      misaligned the head it compares is as long as the misalignment, so there must be that much; and a place for the
      position is needed unless both buffers are aligned. */
  method BufDiff(a: seq<bv8>, b: seq<bv8>, addrA: nat, addrB: nat, len: nat, wantPos: bool)
    returns (same: bool, pos: nat)
    requires len <= |a| && len <= |b|
    requires addrA % WORD == addrB % WORD ==> len >= addrA % WORD
    requires wantPos || addrA % WORD == addrB % WORD == 0
    ensures Verdict(a, b, len, same, pos)
  {
    hide Verdict;
    assert a[0..] == a && b[0..] == b;
    var ua, ub := addrA % WORD, addrB % WORD;
    if ua != ub {
      same, pos := ByteDiff(a, b, 0, len);
      return;
    }
    NoBytes(a, b, 0);
    if ua != 0 {
      same, pos := ByteDiff(a, b, 0, ua);
      if !same {
        LongerVerdict(a, b, ua, len, pos);
        return;
      }
      AnyPos(a, b, ua, pos, 0);
    }
    var cmppos;
    same, cmppos := AlignedDiff(a, b, ua, len - ua);
    JoinVerdict(a, b, 0, ua, len - ua, same, cmppos);
    pos := if same then 0 else ua + cmppos;
  }

  lemma NoBytes(a: seq<bv8>, b: seq<bv8>, off: nat)
    requires off <= |a| && off <= |b|
    ensures Verdict(a[off..], b[off..], 0, true, 0)
  {
  }

  lemma AnyPos(a: seq<bv8>, b: seq<bv8>, len: nat, p: nat, q: nat)
    requires Verdict(a, b, len, true, p)
    ensures Verdict(a, b, len, true, q)
  {
  }

  /** The head is sound for every content of the buffers if and only if it does not reach past them. */
  lemma HeadSoundIff(len: nat, head: nat)
    ensures (forall a: seq<bv8>, b: seq<bv8>, p: nat | |a| == |b| == len + head && Verdict(a, b, head, false, p) ::
               Verdict(a, b, len, false, p))
      <==> head <= len
  {
    if head > len {
      var a: seq<bv8> := seq(len + head, _ => 0);
      var b := a[len := 1];
      assert Verdict(a, b, head, false, len) && !Verdict(a, b, len, false, len);
    } else {
      forall a: seq<bv8>, b: seq<bv8>, p: nat | |a| == |b| == len + head && Verdict(a, b, head, false, p)
        ensures Verdict(a, b, len, false, p)
      {
        LongerVerdict(a, b, head, len, p);
      }
    }
  }

  /** Where the compare by words starts when both buffers are equally misaligned. */
  function WordStart(addr: nat): nat { addr + addr % WORD }

  /** It starts on a word boundary if and only if the buffers are aligned to half a word; the head that always ends on one
      is the misalignment's complement. */
  lemma WordStartAlignedIff(addr: nat)
    ensures WordStart(addr) % WORD == 0 <==> addr % (WORD / 2) == 0
    ensures (addr + (WORD - addr % WORD) % WORD) % WORD == 0
  {
    var q, r := addr / WORD, addr % WORD;
    MultipleMod(q, WORD);
    MultipleMod(2 * q, WORD / 2);
    ModAdd(q * WORD, r + r, WORD);
    ModAdd(q * WORD, r, WORD / 2);
    ModAdd(q * WORD, r + (WORD - r) % WORD, WORD);
  }
}
