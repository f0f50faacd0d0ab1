/**
 The two Internet checksums of the repository: eth_tftpd.c takes 0xffff off after every word, cvimg.c
 folds the carries at the end.
 */
module Checksum {
  import opened Wrappers
  import opened Bits

  newtype Word = x: int | 0 <= x < 0x1_0000

  function Total(words: seq<Word>): nat {
    if words == [] then 0 else Total(words[..|words| - 1]) + words[|words| - 1] as nat
  }

  /** One's complement value of a sum: 0 for 0 only, else the representative in 1..0xffff. */
  function Residue(t: nat): (r: nat)
    ensures r <= 0xffff && r % 0xffff == t % 0xffff && (r == 0 <==> t == 0)
  {
    if t == 0 then 0 else (t - 1) % 0xffff + 1
  }

  function Complement(words: seq<Word>): Word {
    (0xffff - Residue(Total(words))) as Word
  }

  /** A number up to 0xffff is the residue of t when it is congruent to it and zero only with it. */
  lemma ResidueUnique(t: nat, s: nat)
    requires s <= 0xffff && s % 0xffff == t % 0xffff && (s == 0 <==> t == 0)
    ensures s == Residue(t)
  {
  }

  lemma NoWords()
    ensures Total([]) == 0 && Residue(0) == 0
  {
  }

  lemma TotalNext(words: seq<Word>, i: nat)
    requires i < |words|
    ensures Total(words[..i + 1]) == Total(words[..i]) + words[i] as nat
  {
    assert words[..i + 1][..i] == words[..i];
  }

  lemma AddKeeps(t: nat, w: nat, was: nat, now: nat)
    requires was == Residue(t) && w <= 0xffff && now == if was + w > 0xffff then was + w - 0xffff else was + w
    ensures now == Residue(t + w)
  {
    if t > 0 {
      var q := (t - 1) / 0xffff;
      if was + w > 0xffff {
        DivModUnique(0xffff, q + 1, now - 1);
      } else {
        DivModUnique(0xffff, q, now - 1);
      }
    } else if w > 0 {
      DivModUnique(0xffff, 0, w - 1);
    }
  }

  /** ipheader_chksum over `len` bytes of header; a last odd byte is not read. */
  method IpHeaderChecksum(ip: seq<Word>, len: nat) returns (r: Word)
    requires len / 2 <= |ip|
    ensures r == Complement(ip[..len / 2])
  {
    hide Total, Residue;
    NoWords();
    var sum: nat, i: nat := 0, 0;
    while i < len / 2
      invariant i <= len / 2 && sum == Residue(Total(ip[..i]))
    {
      TotalNext(ip, i);
      ghost var was := sum;
      sum := sum + ip[i] as nat;
      if sum > 0xffff {
        sum := sum - 0xffff;
      }
      AddKeeps(Total(ip[..i]), ip[i] as nat, was, sum);
      i := i + 1;
    }
    r := (0xffff - sum) as Word;
  }

  /** checksum_calc: the words, then a left-over byte if the count was odd. */
  method ChecksumCalc(words: seq<Word>, left: Option<Byte>) returns (r: Word)
    ensures r == Complement(words + (if left.Some? then [left.value as Word] else []))
  {
    var sum: nat, i: nat := 0, 0;
    while i < |words|
      invariant i <= |words| && sum == Total(words[..i])
    {
      TotalNext(words, i);
      sum := sum + words[i] as nat;
      i := i + 1;
    }
    assert words[..i] == words;
    ghost var all := words + (if left.Some? then [left.value as Word] else []);
    if left.Some? {
      assert all[..|all| - 1] == words;
      sum := sum + left.value as nat;
    } else {
      assert all == words;
    }
    while sum >= 0x1_0000
      invariant Residue(sum) == Residue(Total(all))
    {
      ghost var was := sum;
      sum := sum % 0x1_0000 + sum / 0x1_0000;
      FoldKeeps(was);
    }
    ResidueUnique(sum, sum);
    r := (0xffff - sum) as Word;
  }

  lemma FoldKeeps(t: nat)
    ensures Residue(t % 0x1_0000 + t / 0x1_0000) == Residue(t)
  {
    assert t == 0xffff * (t / 0x1_0000) + (t % 0x1_0000 + t / 0x1_0000);
    ResidueUnique(t, Residue(t % 0x1_0000 + t / 0x1_0000));
  }

  // ---------------------------------------------------------------------------------------
  // What the checksum is for.

  lemma {:induction false} TotalUpdate(words: seq<Word>, i: nat, w: Word)
    requires i < |words|
    ensures Total(words[i := w]) == Total(words) - words[i] as nat + w as nat
    decreases |words|
  {
    var n := |words| - 1;
    if i == n {
      assert words[i := w][..n] == words[..n];
    } else {
      assert words[i := w][..n] == words[..n][i := w];
      TotalUpdate(words[..n], i, w);
    }
  }

  lemma Completes(t: nat, x: nat)
    ensures (t + x) % 0xffff == 0 <==> x % 0xffff == (0xffff - Residue(t)) % 0xffff
  {
    var r := Residue(t);
    assert (t + x) % 0xffff == (r + x) % 0xffff;
  }

  /** A header recomputes to 0 exactly when its field holds the checksum taken with the field zeroed,
      0 and 0xffff counting as one value, and the header is not zero throughout. */
  lemma Verifies(words: seq<Word>, i: nat)
    requires i < |words|
    ensures Complement(words) == 0 <==>
            Total(words) > 0 && words[i] as nat % 0xffff == Complement(words[i := 0]) as nat % 0xffff
  {
    TotalUpdate(words, i, 0);
    Completes(Total(words[i := 0]), words[i] as nat);
  }

  /** Filling in the checksum makes the header recompute to 0, whatever the other words are. */
  lemma FilledInIsZero(words: seq<Word>, i: nat)
    requires i < |words| && words[i] == 0
    ensures Complement(words[i := Complement(words)]) == 0
  {
    var filled := words[i := Complement(words)];
    assert filled[i := 0] == words;
    TotalUpdate(words, i, Complement(words));
    Verifies(filled, i);
  }

  /** A change of one word of a header that recomputes to 0 goes unseen only between 0 and 0xffff. */
  lemma OneWordChange(words: seq<Word>, i: nat, w: Word)
    requires i < |words| && Complement(words) == 0 && Total(words[i := w]) > 0
    ensures Complement(words[i := w]) == 0 <==> w == words[i] || (w == 0 && words[i] == 0xffff) || (w == 0xffff && words[i] == 0)
  {
    hide Complement, Total;
    Verifies(words, i);
    Verifies(words[i := w], i);
    assert words[i := w][i := 0] == words[i := 0];
  }
}
