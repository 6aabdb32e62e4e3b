/**
 * The Internet checksum of uIP (`chksum` in src/uip/uip.c), against the one's
 * complement sum of section 2 of RFC 1071.
 */
module Checksum {
  import opened Bytes

  /** The sum of the big-endian 16-bit words of `d`; an odd last byte is padded with zero. */
  function WordSum(d: seq<byte>): nat {
    if |d| == 0 then 0
    else if |d| == 1 then Word(d[0], 0) as int
    else Word(d[0], d[1]) as int + WordSum(d[2..])
  }

  /**
   * One's complement 16-bit sum: the residue modulo 65535, where only a sum of
   * zero is represented by 0 and every other multiple of 65535 by 0xffff.
   */
  function OnesSum(total: nat): (r: uint16)
    ensures r % 65535 == total % 65535
    ensures r == 0 <==> total == 0
  {
    if total == 0 then 0 else 1 + (total - 1) % 65535
  }

  /** The two facts above leave one value. */
  lemma OnesSumIsDetermined(total: nat, r: uint16)
    requires r % 65535 == total % 65535 && (r == 0 <==> total == 0)
    ensures r == OnesSum(total)
  {
  }

  /** One step of the loop: add a word, and add the carry back in. */
  function AddWithCarry(sum: uint16, t: uint16): uint16 {
    var s := (sum + t) % 65536;
    if s < t then s + 1 else s
  }

  lemma AddWithCarryIsOnesSum(total: nat, t: uint16)
    ensures AddWithCarry(OnesSum(total), t) == OnesSum(total + t)
  {
    var sum := OnesSum(total);
    assert (sum + t) % 65536 == if sum + t < 65536 then sum + t else sum + t - 65536;
    OnesSumIsDetermined(total + t, AddWithCarry(sum, t));
  }

  lemma {:induction false} WordSumSplit(a: seq<byte>, b: seq<byte>)
    requires |a| % 2 == 0
    ensures WordSum(a + b) == WordSum(a) + WordSum(b)
  {
    if a == [] {
      assert a + b == b;
    } else {
      assert (a + b)[2..] == a[2..] + b;
      WordSumSplit(a[2..], b);
    }
  }

  /** The sum of a longer prefix, by a whole word or by an odd last byte. */
  lemma WordSumGrows(d: seq<byte>, p: nat)
    requires p % 2 == 0 && p < |d|
    ensures p + 1 < |d| ==> WordSum(d[..p + 2]) == WordSum(d[..p]) + Word(d[p], d[p + 1])
    ensures p + 1 == |d| ==> WordSum(d) == WordSum(d[..p]) + Word(d[p], 0)
  {
    if p + 1 < |d| {
      assert d[..p + 2] == d[..p] + [d[p], d[p + 1]];
      WordSumSplit(d[..p], [d[p], d[p + 1]]);
    } else {
      assert d == d[..p] + [d[p]];
      WordSumSplit(d[..p], [d[p]]);
    }
  }

  lemma EmptySum(sum0: uint16, d: seq<byte>)
    ensures OnesSum(sum0 + WordSum(d[..0])) == sum0
  {
  }

  /**
   * `chksum`: the wrap-and-carry loop over data[off..off+len], continuing from
   * an earlier sum. Its value is the one's complement sum.
   */
  method Chksum(sum0: uint16, data: array<byte>, off: nat, len: nat) returns (sum: uint16)
    requires off + len <= data.Length
    ensures sum == OnesSum(sum0 + WordSum(data[off..off + len]))
  {
    hide WordSum, OnesSum, Word;
    ghost var d := data[off..off + len];
    EmptySum(sum0, d);
    sum := sum0;
    var p := 0;
    while p < len - 1
      invariant 0 <= p <= len && p % 2 == 0
      invariant sum == OnesSum(sum0 + WordSum(d[..p]))
    {
      WordSumGrows(d, p);
      var t := Word(data[off + p], data[off + p + 1]);
      AddWithCarryIsOnesSum(sum0 + WordSum(d[..p]), t);
      sum := (sum + t) % 65536;
      if sum < t {
        sum := sum + 1;
      }
      p := p + 2;
    }
    if p == len - 1 {
      WordSumGrows(d, p);
      var t := Word(data[off + p], 0);
      AddWithCarryIsOnesSum(sum0 + WordSum(d[..p]), t);
      sum := (sum + t) % 65536;
      if sum < t {
        sum := sum + 1;
      }
    } else {
      assert d[..p] == d;
    }
  }

  lemma OnesSumAbsorbs(x: nat, y: nat)
    ensures OnesSum(OnesSum(x) + y) == OnesSum(x + y)
  {
    OnesSumIsDetermined(x + y, OnesSum(OnesSum(x) + y));
  }

  /** Summing in two calls, split at an even offset, equals summing at once. */
  lemma ChksumComposes(sum0: uint16, a: seq<byte>, b: seq<byte>)
    requires |a| % 2 == 0
    ensures OnesSum(OnesSum(sum0 + WordSum(a)) + WordSum(b)) == OnesSum(sum0 + WordSum(a + b))
  {
    WordSumSplit(a, b);
    OnesSumAbsorbs(sum0 + WordSum(a), WordSum(b));
  }

  /** A zero checksum means that there was nothing but zero bytes. */
  lemma {:induction false} ZeroSumMeansZeroBytes(d: seq<byte>)
    ensures WordSum(d) == 0 <==> forall i :: 0 <= i < |d| ==> d[i] == 0
  {
    if |d| >= 2 {
      ZeroSumMeansZeroBytes(d[2..]);
      assert forall i :: 2 <= i < |d| ==> d[i] == d[2..][i - 2];
    }
  }

  // ------------------------------------------------- order of the words

  function Words(d: seq<byte>): seq<uint16> {
    if |d| == 0 then []
    else if |d| == 1 then [Word(d[0], 0)]
    else [Word(d[0], d[1])] + Words(d[2..])
  }

  function Sum(ws: seq<uint16>): nat {
    if ws == [] then 0 else ws[0] + Sum(ws[1..])
  }

  lemma {:induction false} WordSumIsSumOfWords(d: seq<byte>)
    ensures WordSum(d) == Sum(Words(d))
  {
    if |d| == 1 {
      assert Words(d)[1..] == [];
    } else if |d| >= 2 {
      WordSumIsSumOfWords(d[2..]);
      assert Words(d)[1..] == Words(d[2..]);
    }
  }

  lemma {:induction false} SumWithout(ws: seq<uint16>, i: nat)
    requires i < |ws|
    ensures Sum(ws) == ws[i] + Sum(ws[..i] + ws[i + 1..])
  {
    if i == 0 {
      assert ws[..0] + ws[1..] == ws[1..];
    } else {
      SumWithout(ws[1..], i - 1);
      assert (ws[..i] + ws[i + 1..])[1..] == ws[1..][..i - 1] + ws[1..][i..];
    }
  }

  lemma RemoveOne<T>(s: seq<T>, i: nat)
    requires i < |s|
    ensures multiset(s[..i] + s[i + 1..]) == multiset(s) - multiset{s[i]}
  {
    assert s == s[..i] + [s[i]] + s[i + 1..];
  }

  lemma {:induction false} SumOfPermutation(v: seq<uint16>, w: seq<uint16>)
    requires multiset(v) == multiset(w)
    ensures Sum(v) == Sum(w)
  {
    if v == [] {
      assert |w| == |multiset(w)| == |multiset(v)|;
    } else {
      assert v[0] in multiset(w);
      var i :| 0 <= i < |w| && w[i] == v[0];
      var rest := w[..i] + w[i + 1..];
      RemoveOne(w, i);
      assert multiset(v[1..]) == multiset(v) - multiset{v[0]} by {
        assert v == [v[0]] + v[1..];
      }
      SumOfPermutation(v[1..], rest);
      SumWithout(w, i);
    }
  }

  /** The checksum does not depend on the order of the 16-bit words. */
  lemma ChksumIgnoresWordOrder(sum0: uint16, a: seq<byte>, b: seq<byte>)
    requires multiset(Words(a)) == multiset(Words(b))
    ensures OnesSum(sum0 + WordSum(a)) == OnesSum(sum0 + WordSum(b))
  {
    hide OnesSum, WordSum, Words, Sum;
    WordSumIsSumOfWords(a);
    WordSumIsSumOfWords(b);
    SumOfPermutation(Words(a), Words(b));
  }

  // ------------------------------------------------- checksum fields

  /** The value that `uip_ipchksum` and `upper_layer_chksum` return for a total. */
  function Reported(total: nat): uint16 {
    var sum := OnesSum(total);
    if sum == 0 then 0xffff else sum
  }

  /** The input test `== 0xffff` accepts exactly the multiples of 65535. */
  lemma AcceptedIffMultiple(total: nat)
    ensures Reported(total) == 0xffff <==> total % 65535 == 0
  {
  }

  /** Storing the complement of the reported sum in a zeroed field makes the test succeed. */
  lemma ComplementCompletes(total: nat)
    ensures (total + (0xffff - Reported(total))) % 65535 == 0
  {
  }

  /** The value of the word that starts at byte `k`. */
  function WordAt(d: seq<byte>, k: nat): uint16
    requires k + 1 < |d|
  {
    Word(d[k], d[k + 1])
  }

  lemma TwoBytes(hi: byte, lo: byte)
    ensures WordSum([hi, lo]) == Word(hi, lo)
  {
  }

  /** Replacing one aligned word changes the sum by the difference of the words. */
  lemma ReplaceWord(d: seq<byte>, d': seq<byte>, k: nat)
    requires k % 2 == 0 && k + 1 < |d| == |d'|
    requires d'[..k] == d[..k] && d'[k + 2..] == d[k + 2..]
    ensures WordSum(d') - WordSum(d) == WordAt(d', k) - WordAt(d, k)
  {
    TwoBytes(d[k], d[k + 1]);
    TwoBytes(d'[k], d'[k + 1]);
    hide WordSum;
    assert d == d[..k] + ([d[k], d[k + 1]] + d[k + 2..]);
    assert d' == d[..k] + ([d'[k], d'[k + 1]] + d[k + 2..]);
    WordSumSplit(d[..k], [d[k], d[k + 1]] + d[k + 2..]);
    WordSumSplit(d[..k], [d'[k], d'[k + 1]] + d[k + 2..]);
    WordSumSplit([d[k], d[k + 1]], d[k + 2..]);
    WordSumSplit([d'[k], d'[k + 1]], d[k + 2..]);
  }
}
