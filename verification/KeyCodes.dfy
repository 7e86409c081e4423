/** The meaning of a stream of key events in terms of the bytes the keyboard sends. */
module KeyCodes {
  import opened Machine
  import opened KeyEvents

  /** The keyboard sent one of these bytes. */
  predicate Sends(e: Event, codes: set<int>) {
    e.Scan? && e.code in codes
  }

  /** One of the bytes `down` was sent and none of the bytes `up` since. */
  ghost predicate HeldDown(es: seq<Event>, down: set<int>, up: set<int>) {
    exists i :: 0 <= i < |es| && Sends(es[i], down) && forall j :: i < j < |es| ==> !Sends(es[j], up)
  }

  function CountSent(es: seq<Event>, codes: set<int>): (n: nat) {
    if es == [] then 0 else CountSent(es[..|es| - 1], codes) + if Sends(es[|es| - 1], codes) then 1 else 0
  }

  lemma HeldBytes(es: seq<Event>, keys: set<Byte>, down: set<int>, up: set<int>)
    requires forall e :: Presses(e, keys) <==> Sends(e, down)
    requires forall e :: Releases(e, keys) <==> Sends(e, up)
    ensures Held(es, keys) <==> HeldDown(es, down, up)
  {
    hide Presses, Releases, Sends;
    if Held(es, keys) {
      var i :| 0 <= i < |es| && Presses(es[i], keys) && forall j :: i < j < |es| ==> !Releases(es[j], keys);
      assert Sends(es[i], down);
    }
    if HeldDown(es, down, up) {
      var i :| 0 <= i < |es| && Sends(es[i], down) && forall j :: i < j < |es| ==> !Sends(es[j], up);
      assert Presses(es[i], keys);
    }
  }

  lemma {:induction false} CapsPresses(es: seq<Event>)
    ensures CountPresses(es, {KEY_CAPS}) == CountSent(es, {0x3A})
    decreases |es|
  {
    if es != [] {
      CapsPresses(es[..|es| - 1]);
    }
  }

  /** The flags by the bytes received: shift is 0x2A or 0x36 down and 0xAA or 0xB6 up, control 0x1D and 0x9D, alt
      0x38 and 0xB8; caps lock changes with every 0x3A. */
  lemma ModifiersByCode(es: seq<Event>)
    ensures var m := ModifiersAfter(es);
      && (m.shift <==> HeldDown(es, {0x2A, 0x36}, {0xAA, 0xB6}))
      && (m.ctrl <==> HeldDown(es, {0x1D}, {0x9D}))
      && (m.alt <==> HeldDown(es, {0x38}, {0xB8}))
      && (m.caps <==> CountSent(es, {0x3A}) % 2 == 1)
  {
    hide ModifiersAfter;
    ModifiersSpec(es);
    HeldBytes(es, SHIFT_KEYS, {0x2A, 0x36}, {0xAA, 0xB6});
    HeldBytes(es, {KEY_CTRL}, {0x1D}, {0x9D});
    HeldBytes(es, {KEY_ALT}, {0x38}, {0xB8});
    CapsPresses(es);
  }

  /** The characters of a run of keys from `code` on. */
  ghost predicate Types(table: Byte -> Byte, code: int, text: string) {
    0 <= code && code + |text| <= 0x80 && forall i :: 0 <= i < |text| ==> table(code + i) == text[i] as int
  }

  lemma PlainNumberKeys()
    ensures Types(Plain, 0x02, "1234567890-=")
  {
  }

  lemma ShiftedNumberKeys()
    ensures Types(Shifted, 0x02, "!@#$%^&*()_+")
  {
  }

  lemma PlainTopRow()
    ensures Types(Plain, 0x10, "qwertyuiop[]")
  {
  }

  lemma ShiftedTopRow()
    ensures Types(Shifted, 0x10, "QWERTYUIOP{}")
  {
  }

  lemma PlainHomeRow()
    ensures Types(Plain, 0x1E, "asdfghjkl;'`")
  {
  }

  lemma ShiftedHomeRow()
    ensures Types(Shifted, 0x1E, "ASDFGHJKL:\"~")
  {
  }

  lemma PlainBottomRow()
    ensures Types(Plain, 0x2B, "\\zxcvbnm,./")
  {
  }

  lemma ShiftedBottomRow()
    ensures Types(Shifted, 0x2B, "|ZXCVBNM<>?")
  {
  }

  lemma PlainKeypad()
    ensures Types(Plain, 0x47, "789-456+1230.")
  {
  }

  lemma ShiftedKeypad()
    ensures Types(Shifted, 0x47, "789-456+1230.")
  {
  }

  lemma OtherKeys()
    ensures Plain(0x01) == Shifted(0x01) == 27 && Plain(0x0E) == Shifted(0x0E) == 8
    ensures Plain(0x0F) == Shifted(0x0F) == 9 && Plain(0x1C) == Shifted(0x1C) == 10
    ensures Plain(0x37) == Shifted(0x37) == 42 && Plain(0x39) == Shifted(0x39) == 32
  {
  }

  /** The keys as they are labelled, without and with shift: number row, letter rows and keypad, then escape,
      backspace, tab, enter, `*` and space. */
  lemma KeyboardLayout()
    ensures Types(Plain, 0x02, "1234567890-=") && Types(Shifted, 0x02, "!@#$%^&*()_+")
    ensures Types(Plain, 0x10, "qwertyuiop[]") && Types(Shifted, 0x10, "QWERTYUIOP{}")
    ensures Types(Plain, 0x1E, "asdfghjkl;'`") && Types(Shifted, 0x1E, "ASDFGHJKL:\"~")
    ensures Types(Plain, 0x2B, "\\zxcvbnm,./") && Types(Shifted, 0x2B, "|ZXCVBNM<>?")
    ensures Types(Plain, 0x47, "789-456+1230.") && Types(Shifted, 0x47, "789-456+1230.")
    ensures Plain(0x01) == Shifted(0x01) == 27 && Plain(0x0E) == Shifted(0x0E) == 8
    ensures Plain(0x0F) == Shifted(0x0F) == 9 && Plain(0x1C) == Shifted(0x1C) == 10
    ensures Plain(0x37) == Shifted(0x37) == 42 && Plain(0x39) == Shifted(0x39) == 32
  {
    hide Types, Plain, Shifted;
    PlainNumberKeys();
    ShiftedNumberKeys();
    PlainTopRow();
    ShiftedTopRow();
    PlainHomeRow();
    ShiftedHomeRow();
    PlainBottomRow();
    ShiftedBottomRow();
    PlainKeypad();
    ShiftedKeypad();
    OtherKeys();
  }

  /** The modifier keys: both shifts, control, alt and caps lock. */
  const MODIFIER_CODES: set<int> := {0x1D, 0x2A, 0x36, 0x38, 0x3A}

  /** Codes of keys that have no character: the function keys, and codes no key of the table has. */
  predicate Silent(code: int) {
    code == 0 || 0x3B <= code <= 0x46 || 0x54 <= code < 0x80
  }

  /** Below 0x80 a code has no character exactly if it is a modifier or silent. */
  lemma NoCharacter(code: Byte)
    requires code < 0x80
    ensures Plain(code) == 0 <==> code in MODIFIER_CODES || Silent(code)
  {
  }

  /** The character a byte types after any history, by the bytes received before it. Letters are capitals under
      shift or caps lock, other keys follow shift alone; modifiers, releases and readers type nothing. */
  lemma TypedByHistory(es: seq<Event>, e: Event)
    ensures e == Get || e.code >= 0x80 || e.code in MODIFIER_CODES ==> CharOf(es, e) == 0
    ensures e.Scan? && e.code < 0x80 && e.code !in MODIFIER_CODES ==>
      var shift, caps := HeldDown(es, {0x2A, 0x36}, {0xAA, 0xB6}), CountSent(es, {0x3A}) % 2 == 1;
      CharOf(es, e) == if shift || (caps && 97 <= Plain(e.code) <= 122) then Shifted(e.code) else Plain(e.code)
  {
    hide Plain, Shifted, ModifiersAfter;
    ModifiersByCode(es);
    if e.Scan? {
      AsciiSpec(ModifiersAfter(es).shift, ModifiersAfter(es).caps, e.code);
      TablesAgree(e.code);
    }
  }

  predicate Between(lo: int, hi: int, x: int) {
    lo <= x < hi
  }

  ghost function Codes(lo: int, hi: int): set<int> {
    set x | lo <= x < hi && Between(lo, hi, x)
  }

  ghost function SilentCodes(): set<int> {
    set x | 0 <= x < 0x80 && Silent(x)
  }

  /** What each statistic counts, by the bytes received; characters typed are all the rest. */
  lemma {:induction false} CountedByCode(es: seq<Event>)
    ensures CountPressed(es) == CountSent(es, Codes(0, 0x80))
    ensures CountKind(es, Release) == CountSent(es, Codes(0x80, 0x100))
    ensures CountKind(es, Special) == CountSent(es, MODIFIER_CODES)
    ensures CountKind(es, Invalid) == CountSent(es, SilentCodes())
    ensures |Typed(es)| == CountSent(es, Codes(0, 0x80) - MODIFIER_CODES - SilentCodes())
    decreases |es|
  {
    if es != [] {
      hide CharOf, Plain;
      var front, e := es[..|es| - 1], es[|es| - 1];
      CountedByCode(front);
      KindByCode(front, e);
    }
  }

  lemma KindByCode(es: seq<Event>, e: Event)
    ensures Pressed(e) <==> Sends(e, Codes(0, 0x80))
    ensures KindOf(es, e) == Release <==> Sends(e, Codes(0x80, 0x100))
    ensures KindOf(es, e) == Special <==> Sends(e, MODIFIER_CODES)
    ensures KindOf(es, e) == Invalid <==> Sends(e, SilentCodes())
    ensures CharOf(es, e) != 0 <==> Sends(e, Codes(0, 0x80) - MODIFIER_CODES - SilentCodes())
  {
    hide Plain, Ascii, ModifiersAfter;
    if Pressed(e) {
      NoCharacter(e.code);
      AsciiSpec(ModifiersAfter(es).shift, ModifiersAfter(es).caps, e.code);
    }
  }

  // ------------------------------------------------------------------ the fate of characters

  /** A typed character is accepted exactly if fewer than 256 are outstanding, and is otherwise dropped; a reader
      takes one exactly if one is outstanding; nothing else changes the account. */
  lemma FateOf(es: seq<Event>, e: Event)
    ensures var t, r, c := Account(es), Account(es + [e]), CharOf(es, e);
      var waiting := |t.accepted| - t.taken;
      && (r.accepted == if c != 0 && waiting < 256 then t.accepted + [c] else t.accepted)
      && (r.dropped == if c != 0 && waiting >= 256 then t.dropped + 1 else t.dropped)
      && (r.taken == if e == Get && waiting > 0 then t.taken + 1 else t.taken)
  {
    hide Ascii;
    assert (es + [e])[..|es|] == es;
  }

  /** With no reader the first 256 characters typed are kept and the rest are dropped. */
  lemma {:induction false} FirstAreKept(es: seq<Event>)
    requires Get !in es
    ensures var t, s := Account(es), Typed(es);
      && t.taken == 0 && t.accepted == (if |s| <= 256 then s else s[..256])
      && t.dropped == if |s| <= 256 then 0 else |s| - 256
    decreases |es|
  {
    if es != [] {
      hide CharOf, Account;
      var front, e := es[..|es| - 1], es[|es| - 1];
      FirstAreKept(front);
      FateOf(front, e);
      assert front + [e] == es;
    }
  }

  /** `n` reads in a row take the `n` oldest outstanding characters, or all there are. */
  lemma {:induction false} ReadsDrain(es: seq<Event>, n: nat)
    ensures var t, r := Account(es), Account(es + seq(n, _ => Get));
      && r.accepted == t.accepted && r.dropped == t.dropped
      && r.taken == if t.taken + n <= |t.accepted| then t.taken + n else |t.accepted|
  {
    hide CharOf, Account;
    if n == 0 {
      assert es + seq(n, _ => Get) == es;
    } else {
      var fs := es + seq(n - 1, _ => Get);
      ReadsDrain(es, n - 1);
      FateOf(fs, Get);
      assert CharOf(fs, Get) == 0 by { TypedByHistory(fs, Get); }
      assert fs + [Get] == es + seq(n, _ => Get);
    }
  }
}
