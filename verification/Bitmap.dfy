/**
 * The packed bitmap of `kernel/klib/bitmap.c`: bit `i` of the map is bit `i % 32` of the
 * 32-bit word `i / 32`.  A word is modelled by its 32 bits, lowest first, and the C bitwise
 * operators act on it bit by bit.
 */
module Bitmaps {

  type Word = w: seq<bool> | |w| == 32 witness seq(32, _ => false)

  /** `BIT(k)` */
  function Mask(k: nat): Word
    requires k < 32
  {
    seq(32, i => i == k)
  }

  function Or(u: Word, v: Word): Word { seq(32, i requires 0 <= i < 32 => u[i] || v[i]) }
  function And(u: Word, v: Word): Word { seq(32, i requires 0 <= i < 32 => u[i] && v[i]) }
  function Not(u: Word): Word { seq(32, i requires 0 <= i < 32 => !u[i]) }
  predicate NonZero(u: Word) { true in u }

  lemma TestMask(w: Word, k: nat)
    requires k < 32
    ensures NonZero(And(w, Mask(k))) <==> w[k]
  {
    assert And(w, Mask(k))[k] == w[k];
  }

  /** Whether bit `i` of the packed words is set. */
  ghost predicate Packed(words: seq<Word>, i: nat)
    requires i < 32 * |words|
  {
    words[i / 32][i % 32]
  }

  lemma Repacked(words: seq<Word>, words': seq<Word>, pos: nat, v: bool)
    requires pos < 32 * |words|
    requires words' == words[pos / 32 := words[pos / 32][pos % 32 := v]]
    ensures forall i: nat {:trigger Packed(words', i)} :: i < 32 * |words| ==> Packed(words', i) == if i == pos then v else Packed(words, i)
  {
  }

  class Bitmap {
    const data: array<Word>
    const nbits: nat

    /** The map's bits, as the words hold them. */
    ghost var bits: seq<bool>

    ghost predicate Valid()
      reads this, data
    {
      && nbits == |bits| <= 32 * data.Length < nbits + 32
      && forall i: nat {:trigger Packed(data[..], i)} :: i < nbits ==> bits[i] == Packed(data[..], i)
    }

    constructor (nbits: nat)
      ensures Valid() && this.nbits == nbits && fresh(data)
    {
      this.nbits := nbits;
      data := new Word[(nbits + 31) / 32];
      new;
      bits := seq(nbits, i requires 0 <= i < nbits reads this, data => Packed(data[..], i));
    }

    /** A static bitmap starts out all zero. */
    method ClearAll()
      requires Valid()
      modifies this`bits, data
      ensures Valid() && forall i :: 0 <= i < nbits ==> !bits[i]
    {
      for k := 0 to nbits
        invariant Valid() && forall i :: 0 <= i < k ==> !bits[i]
      {
        Clear(k);
      }
    }

    method Set(pos: nat)
      requires Valid() && pos < nbits
      modifies this`bits, data
      ensures Valid() && bits == old(bits)[pos := true]
    {
      var word := Or(data[pos / 32], Mask(pos % 32));
      data[pos / 32] := word;
      bits := bits[pos := true];
      assert word == old(data[pos / 32])[pos % 32 := true];
      Repacked(old(data[..]), data[..], pos, true);
    }

    method Clear(pos: nat)
      requires Valid() && pos < nbits
      modifies this`bits, data
      ensures Valid() && bits == old(bits)[pos := false]
    {
      var word := And(data[pos / 32], Not(Mask(pos % 32)));
      data[pos / 32] := word;
      bits := bits[pos := false];
      assert word == old(data[pos / 32])[pos % 32 := false];
      Repacked(old(data[..]), data[..], pos, false);
    }

    method Test(pos: nat) returns (isSet: bool)
      requires Valid() && pos < nbits
      ensures isSet == bits[pos]
    {
      assert bits[pos] == Packed(data[..], pos);
      TestMask(data[pos / 32], pos % 32);
      isSet := NonZero(And(data[pos / 32], Mask(pos % 32)));
    }

    /** The lowest clear bit, if there is one among the first `nbits`. */
    method FindZero() returns (found: bool, pos: nat)
      requires Valid()
      ensures found <==> false in bits
      ensures found ==> pos < nbits && !bits[pos] && forall i :: 0 <= i < pos ==> bits[i]
    {
      pos := 0;
      var i := 0;
      while i < (nbits + 31) / 32
        invariant 0 <= i <= data.Length
        invariant forall j :: 0 <= j < 32 * i && j < nbits ==> bits[j]
      {
        var free := Not(data[i]);
        if NonZero(free) {
          found, pos := ScanWord(i);
          return;
        }
        forall j | 32 * i <= j < 32 * i + 32 && j < nbits
          ensures bits[j]
        {
          assert !free[j % 32] && bits[j] == Packed(data[..], j);
        }
        i := i + 1;
      }
      found := false;
    }

    /** The inner loop: the word `i` has a clear bit, perhaps beyond the end of the map. */
    method ScanWord(i: nat) returns (found: bool, pos: nat)
      requires Valid() && i < data.Length && NonZero(Not(data[i]))
      requires forall j :: 0 <= j < 32 * i && j < nbits ==> bits[j]
      ensures found <==> false in bits
      ensures found ==> pos < nbits && !bits[pos] && forall j :: 0 <= j < pos ==> bits[j]
    {
      var free := Not(data[i]);
      var bit := 0;
      while bit < 32
        invariant 0 <= bit <= 32
        invariant forall k :: 0 <= k < bit ==> !free[k]
        invariant forall j :: 0 <= j < 32 * i + bit && j < nbits ==> bits[j]
      {
        TestMask(free, bit);
        assert i * 32 + bit < nbits ==> bits[i * 32 + bit] == Packed(data[..], i * 32 + bit);
        if NonZero(And(free, Mask(bit))) {
          pos := i * 32 + bit;
          if pos >= nbits {
            return false, pos;
          }
          assert !bits[pos];
          return true, pos;
        }
        bit := bit + 1;
      }
      assert false;
    }
  }
}
