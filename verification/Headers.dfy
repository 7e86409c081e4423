/** `memory_block_t` as it lies in memory: five fields in twenty bytes. */
module Headers {
  import opened Machine

  /** `sizeof(memory_block_t)` with 32-bit pointers and padding after `is_free`. */
  const HEADER := 20

  datatype Header = Header(address: Word, size: Word, isFree: bool, next: Word, prev: Word)

  predicate Fits(ram: seq<Byte>, h: int) {
    0 <= h && h + HEADER <= |ram|
  }

  function Load(ram: seq<Byte>, h: int): (hd: Header)
    requires Fits(ram, h)
  {
    Header(LoadWord(ram, h), LoadWord(ram, h + 4), ram[h + 8] != 0, LoadWord(ram, h + 12), LoadWord(ram, h + 16))
  }

  lemma LoadFrame(r0: seq<Byte>, r1: seq<Byte>, lo: int, hi: int, h: int)
    requires SameOutside(r0, r1, lo, hi)
    requires Fits(r0, h)
    requires h + HEADER <= lo || hi <= h
    ensures Load(r1, h) == Load(r0, h)
  {
    LoadWordFrame(r0, r1, lo, hi, h);
    LoadWordFrame(r0, r1, lo, hi, h + 4);
    LoadWordFrame(r0, r1, lo, hi, h + 12);
    LoadWordFrame(r0, r1, lo, hi, h + 16);
    assert Outside(lo, hi, h + 8);
  }

  /** Storing the word at offset `f` of a header leaves the other fields and all else alone. */
  lemma StoreField(ram: seq<Byte>, h: int, f: int, v: Word)
    requires Fits(ram, h) && 0 <= f <= 16 && (f + 4 <= 8 || 9 <= f)
    ensures var r := StoreWord(ram, h + f, v);
      && SameOutside(ram, r, h, h + HEADER)
      && (4 <= f ==> LoadWord(r, h) == LoadWord(ram, h))
      && (8 <= f || f == 0 ==> LoadWord(r, h + 4) == LoadWord(ram, h + 4))
      && (16 <= f || f <= 8 ==> LoadWord(r, h + 12) == LoadWord(ram, h + 12))
      && (f <= 12 ==> LoadWord(r, h + 16) == LoadWord(ram, h + 16))
      && r[h + 8] == ram[h + 8]
  {
    var r, lo, hi := StoreWord(ram, h + f, v), h + f, h + f + 4;
    SameOutsideWider(ram, r, lo, hi, h, h + HEADER);
    if 4 <= f { LoadWordFrame(ram, r, lo, hi, h); }
    if 8 <= f || f == 0 { LoadWordFrame(ram, r, lo, hi, h + 4); }
    if 16 <= f || f <= 8 { LoadWordFrame(ram, r, lo, hi, h + 12); }
    if f <= 12 { LoadWordFrame(ram, r, lo, hi, h + 16); }
    assert Outside(lo, hi, h + 8);
  }

  // One function per C field assignment `h->field = v`.

  function StoreAddress(ram: seq<Byte>, h: int, v: Word): (r: seq<Byte>)
    requires Fits(ram, h)
    ensures SameOutside(ram, r, h, h + HEADER)
    ensures Load(r, h) == Load(ram, h).(address := v)
  {
    StoreField(ram, h, 0, v);
    StoreWord(ram, h + 0, v)
  }

  function StoreSize(ram: seq<Byte>, h: int, v: Word): (r: seq<Byte>)
    requires Fits(ram, h)
    ensures SameOutside(ram, r, h, h + HEADER)
    ensures Load(r, h) == Load(ram, h).(size := v)
  {
    StoreField(ram, h, 4, v);
    StoreWord(ram, h + 4, v)
  }

  function StoreIsFree(ram: seq<Byte>, h: int, v: bool): (r: seq<Byte>)
    requires Fits(ram, h)
    ensures SameOutside(ram, r, h, h + HEADER)
    ensures Load(r, h) == Load(ram, h).(isFree := v)
  {
    var r := ram[h + 8 := if v then 1 else 0];
    assert SameOutside(ram, r, h + 8, h + 9);
    LoadWordFrame(ram, r, h + 8, h + 9, h);
    LoadWordFrame(ram, r, h + 8, h + 9, h + 4);
    LoadWordFrame(ram, r, h + 8, h + 9, h + 12);
    LoadWordFrame(ram, r, h + 8, h + 9, h + 16);
    r
  }

  function StoreNext(ram: seq<Byte>, h: int, v: Word): (r: seq<Byte>)
    requires Fits(ram, h)
    ensures SameOutside(ram, r, h, h + HEADER)
    ensures Load(r, h) == Load(ram, h).(next := v)
  {
    StoreField(ram, h, 12, v);
    StoreWord(ram, h + 12, v)
  }

  function StorePrev(ram: seq<Byte>, h: int, v: Word): (r: seq<Byte>)
    requires Fits(ram, h)
    ensures SameOutside(ram, r, h, h + HEADER)
    ensures Load(r, h) == Load(ram, h).(prev := v)
  {
    StoreField(ram, h, 16, v);
    StoreWord(ram, h + 16, v)
  }
}
