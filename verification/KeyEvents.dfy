/** Scancodes, modifiers and translation, and what a stream of key events means. */
module KeyEvents {
  import opened Machine

  const KEY_CTRL: Byte := 0x1D
  const KEY_LSHIFT: Byte := 0x2A
  const KEY_RSHIFT: Byte := 0x36
  const KEY_ALT: Byte := 0x38
  const KEY_CAPS: Byte := 0x3A

  const BUFFER_SIZE := 256

  function Plain0(): (row: seq<Byte>) { [0, 27, 49, 50, 51, 52, 53, 54, 55, 56, 57, 48, 45, 61, 8, 9] }
  function Plain1(): (row: seq<Byte>) { [113, 119, 101, 114, 116, 121, 117, 105, 111, 112, 91, 93, 10, 0, 97, 115] }
  function Plain2(): (row: seq<Byte>) { [100, 102, 103, 104, 106, 107, 108, 59, 39, 96, 0, 92, 122, 120, 99, 118] }
  function Plain3(): (row: seq<Byte>) { [98, 110, 109, 44, 46, 47, 0, 42, 0, 32, 0, 0, 0, 0, 0, 0] }
  function Plain4(): (row: seq<Byte>) { [0, 0, 0, 0, 0, 0, 0, 55, 56, 57, 45, 52, 53, 54, 43, 49] }
  function Plain5(): (row: seq<Byte>) { [50, 51, 48, 46] }

  /** `scancode_to_ascii_table`, sixteen codes to a row; codes from 0x54 up have no character. */
  function Plain(code: Byte): (c: Byte) {
    if code < 0x10 then Plain0()[code]
    else if code < 0x20 then Plain1()[code - 0x10]
    else if code < 0x30 then Plain2()[code - 0x20]
    else if code < 0x40 then Plain3()[code - 0x30]
    else if code < 0x50 then Plain4()[code - 0x40]
    else if code < 0x54 then Plain5()[code - 0x50]
    else 0
  }

  function Shifted0(): (row: seq<Byte>) { [0, 27, 33, 64, 35, 36, 37, 94, 38, 42, 40, 41, 95, 43, 8, 9] }
  function Shifted1(): (row: seq<Byte>) { [81, 87, 69, 82, 84, 89, 85, 73, 79, 80, 123, 125, 10, 0, 65, 83] }
  function Shifted2(): (row: seq<Byte>) { [68, 70, 71, 72, 74, 75, 76, 58, 34, 126, 0, 124, 90, 88, 67, 86] }
  function Shifted3(): (row: seq<Byte>) { [66, 78, 77, 60, 62, 63, 0, 42, 0, 32, 0, 0, 0, 0, 0, 0] }
  function Shifted4(): (row: seq<Byte>) { [0, 0, 0, 0, 0, 0, 0, 55, 56, 57, 45, 52, 53, 54, 43, 49] }
  function Shifted5(): (row: seq<Byte>) { [50, 51, 48, 46] }

  /** `shifted_chars`, sixteen codes to a row; codes from 0x54 up have no character. */
  function Shifted(code: Byte): (c: Byte) {
    if code < 0x10 then Shifted0()[code]
    else if code < 0x20 then Shifted1()[code - 0x10]
    else if code < 0x30 then Shifted2()[code - 0x20]
    else if code < 0x40 then Shifted3()[code - 0x30]
    else if code < 0x50 then Shifted4()[code - 0x40]
    else if code < 0x54 then Shifted5()[code - 0x50]
    else 0
  }

  datatype Modifiers = Modifiers(shift: bool, ctrl: bool, alt: bool, caps: bool)

  const NO_MODIFIERS := Modifiers(false, false, false, false)

  predicate IsSpecial(code: Byte) {
    code == KEY_LSHIFT || code == KEY_RSHIFT || code == KEY_CTRL || code == KEY_ALT || code == KEY_CAPS
  }

  /** `scancode_to_ascii` for a code with the release bit removed. */
  function Ascii(shift: bool, caps: bool, code: Byte): (c: Byte) {
    var plain := Plain(code);
    if (shift || (caps && 97 <= plain <= 122)) && Shifted(code) != 0 then Shifted(code) else plain
  }

  predicate IsLetter(c: Byte) {
    97 <= c <= 122
  }

  predicate KeyAgrees(plain: Byte, shifted: Byte) {
    (if IsLetter(plain) then shifted == plain - 32 else (shifted != 0 <==> plain != 0))
  }

  predicate RowsAgree(plain: seq<Byte>, shifted: seq<Byte>) {
    |plain| == |shifted| && forall k :: 0 <= k < |plain| ==> KeyAgrees(plain[k], shifted[k])
  }

  lemma Row0()
    ensures |Plain0()| == 16 && RowsAgree(Plain0(), Shifted0())
  {
  }

  lemma Row1()
    ensures |Plain1()| == 16 && RowsAgree(Plain1(), Shifted1())
  {
  }

  lemma Row2()
    ensures |Plain2()| == 16 && RowsAgree(Plain2(), Shifted2())
  {
  }

  lemma Row3()
    ensures |Plain3()| == 16 && RowsAgree(Plain3(), Shifted3())
  {
  }

  lemma Row4()
    ensures |Plain4()| == 16 && RowsAgree(Plain4(), Shifted4())
  {
  }

  lemma Row5()
    ensures |Plain5()| == 4 && RowsAgree(Plain5(), Shifted5())
  {
  }

  /** How the two tables relate: letters shift to capitals, and the same keys have characters in both. */
  lemma TablesAgree(code: Byte)
    ensures KeyAgrees(Plain(code), Shifted(code))
  {
    hide Plain0, Plain1, Plain2, Plain3, Plain4, Plain5, Shifted0, Shifted1, Shifted2, Shifted3, Shifted4, Shifted5;
    Row0();
    Row1();
    Row2();
    Row3();
    Row4();
    Row5();
  }

  /** Letters are capitals when shift or caps lock is on (both together too); caps lock affects nothing
      else, shift takes the second table, and whether a key has a character depends on the key alone. */
  lemma AsciiSpec(shift: bool, caps: bool, code: Byte)
    ensures IsLetter(Plain(code)) ==>
      Ascii(shift, caps, code) == if shift || caps then Plain(code) - 32 else Plain(code)
    ensures !IsLetter(Plain(code)) ==> Ascii(shift, caps, code) == if shift then Shifted(code) else Plain(code)
    ensures Ascii(shift, caps, code) != 0 <==> Plain(code) != 0
  {
    TablesAgree(code);
  }

  /** A byte from the keyboard, or a reader taking one character. */
  datatype Event = Scan(code: Byte) | Get

  predicate Pressed(e: Event) {
    e.Scan? && e.code < 0x80
  }

  function KeyOf(e: Event): (k: Byte)
    requires e.Scan?
  {
    if e.code < 0x80 then e.code else e.code - 0x80
  }

  // ------------------------------------------------------------------ modifiers by state machine

  function OnPress(m: Modifiers, k: Byte): (r: Modifiers) {
    if k == KEY_LSHIFT || k == KEY_RSHIFT then m.(shift := true)
    else if k == KEY_CTRL then m.(ctrl := true)
    else if k == KEY_ALT then m.(alt := true)
    else if k == KEY_CAPS then m.(caps := !m.caps)
    else m
  }

  function OnRelease(m: Modifiers, k: Byte): (r: Modifiers) {
    if k == KEY_LSHIFT || k == KEY_RSHIFT then m.(shift := false)
    else if k == KEY_CTRL then m.(ctrl := false)
    else if k == KEY_ALT then m.(alt := false)
    else m
  }

  function OnEvent(m: Modifiers, e: Event): (r: Modifiers) {
    if !e.Scan? then m else if Pressed(e) then OnPress(m, KeyOf(e)) else OnRelease(m, KeyOf(e))
  }

  function ModifiersAfter(es: seq<Event>): (m: Modifiers) {
    if es == [] then NO_MODIFIERS else OnEvent(ModifiersAfter(es[..|es| - 1]), es[|es| - 1])
  }

  // ------------------------------------------------------------------ modifiers by history

  predicate Presses(e: Event, keys: set<Byte>) {
    Pressed(e) && KeyOf(e) in keys
  }

  predicate Releases(e: Event, keys: set<Byte>) {
    e.Scan? && !Pressed(e) && KeyOf(e) in keys
  }

  /** One of the keys was pressed and none of them released since. */
  ghost predicate Held(es: seq<Event>, keys: set<Byte>) {
    exists i :: 0 <= i < |es| && Presses(es[i], keys) && forall j :: i < j < |es| ==> !Releases(es[j], keys)
  }

  function CountPresses(es: seq<Event>, keys: set<Byte>): (n: nat) {
    if es == [] then 0 else CountPresses(es[..|es| - 1], keys) + (if Presses(es[|es| - 1], keys) then 1 else 0)
  }

  const SHIFT_KEYS: set<Byte> := {KEY_LSHIFT, KEY_RSHIFT}

  lemma HeldStep(es: seq<Event>, e: Event, keys: set<Byte>)
    ensures Held(es + [e], keys) <==> Presses(e, keys) || (Held(es, keys) && !Releases(e, keys))
  {
    var fs := es + [e];
    var n := |es|;
    assert fs[n] == e && forall i :: 0 <= i < n ==> fs[i] == es[i];
    if Held(fs, keys) {
      var i :| 0 <= i < |fs| && Presses(fs[i], keys) && forall j :: i < j < |fs| ==> !Releases(fs[j], keys);
      if i < n {
        assert Presses(es[i], keys) && forall j :: i < j < n ==> !Releases(es[j], keys) by {
          assert forall j :: i < j < n ==> es[j] == fs[j];
        }
      }
    }
    if Presses(e, keys) {
      assert Presses(fs[n], keys);
    } else if Held(es, keys) && !Releases(e, keys) {
      var i :| 0 <= i < n && Presses(es[i], keys) && forall j :: i < j < n ==> !Releases(es[j], keys);
      assert Presses(fs[i], keys);
    }
  }

  /** The state machine computes what the history says: a modifier is on when one of its keys was pressed
      and none released since; caps lock is on after an odd number of presses. */
  lemma {:induction false} ModifiersSpec(es: seq<Event>)
    ensures var m := ModifiersAfter(es);
      && (m.shift <==> Held(es, SHIFT_KEYS))
      && (m.ctrl <==> Held(es, {KEY_CTRL}))
      && (m.alt <==> Held(es, {KEY_ALT}))
      && (m.caps <==> CountPresses(es, {KEY_CAPS}) % 2 == 1)
    decreases |es|
  {
    if es != [] {
      hide Held;
      var front, e := es[..|es| - 1], es[|es| - 1];
      assert es == front + [e];
      ModifiersSpec(front);
      HeldStep(front, e, SHIFT_KEYS);
      HeldStep(front, e, {KEY_CTRL});
      HeldStep(front, e, {KEY_ALT});
    }
  }

  // ------------------------------------------------------------------ characters and their fate

  /** The character an event types after the history `es`; 0 if it types none. */
  function CharOf(es: seq<Event>, e: Event): (c: Byte) {
    if Pressed(e) && !IsSpecial(KeyOf(e)) then
      Ascii(ModifiersAfter(es).shift, ModifiersAfter(es).caps, KeyOf(e))
    else 0
  }

  /** Every character typed, in order. */
  function Typed(es: seq<Event>): (s: seq<Byte>) {
    if es == [] then [] else
      var front, e := es[..|es| - 1], es[|es| - 1];
      Typed(front) + (if CharOf(front, e) != 0 then [CharOf(front, e)] else [])
  }

  datatype Tally = Tally(accepted: seq<Byte>, taken: nat, dropped: nat) {
    predicate Ok() { taken <= |accepted| <= taken + BUFFER_SIZE }
  }

  /** Bookkeeping without a buffer: a typed character is accepted unless 256 are outstanding, and a
      reader takes the oldest outstanding one. */
  function Book(t: Tally, e: Event, c: Byte): (r: Tally)
    requires t.Ok()
    ensures r.Ok()
  {
    if e == Get then (if t.taken < |t.accepted| then t.(taken := t.taken + 1) else t)
    else if c == 0 then t
    else if |t.accepted| - t.taken < BUFFER_SIZE then t.(accepted := t.accepted + [c])
    else t.(dropped := t.dropped + 1)
  }

  function Account(es: seq<Event>): (t: Tally)
    ensures t.Ok()
  {
    if es == [] then Tally([], 0, 0) else
      var front, e := es[..|es| - 1], es[|es| - 1];
      Book(Account(front), e, CharOf(front, e))
  }

  /** Every typed character is accepted or dropped; with nothing dropped the two sequences are equal. */
  lemma {:induction false} TypedAccounted(es: seq<Event>)
    ensures |Typed(es)| == |Account(es).accepted| + Account(es).dropped
    ensures Account(es).dropped == 0 ==> Account(es).accepted == Typed(es)
    decreases |es|
  {
    if es != [] {
      TypedAccounted(es[..|es| - 1]);
    }
  }

  // ------------------------------------------------------------------ what the statistics count

  datatype Kind = Reading | Release | Special | Invalid | Character

  function KindOf(es: seq<Event>, e: Event): (k: Kind) {
    if e == Get then Reading
    else if !Pressed(e) then Release
    else if IsSpecial(KeyOf(e)) then Special
    else if CharOf(es, e) == 0 then Invalid
    else Character
  }

  function CountKind(es: seq<Event>, kind: Kind): (n: nat) {
    if es == [] then 0 else
      var front, e := es[..|es| - 1], es[|es| - 1];
      CountKind(front, kind) + (if KindOf(front, e) == kind then 1 else 0)
  }

  function CountPressed(es: seq<Event>): (n: nat) {
    if es == [] then 0 else CountPressed(es[..|es| - 1]) + (if Pressed(es[|es| - 1]) then 1 else 0)
  }

  /** Every key press is special, invalid, accepted or dropped. */
  lemma {:induction false} PressesAccounted(es: seq<Event>)
    ensures CountPressed(es) ==
      CountKind(es, Special) + CountKind(es, Invalid) + |Account(es).accepted| + Account(es).dropped
    decreases |es|
  {
    if es != [] {
      PressesAccounted(es[..|es| - 1]);
    }
  }

  /** One more event: how every summary of the history moves. */
  lemma OneMore(es: seq<Event>, e: Event)
    ensures var fs := es + [e];
      && ModifiersAfter(fs) == OnEvent(ModifiersAfter(es), e)
      && Account(fs) == Book(Account(es), e, CharOf(es, e))
      && CountPressed(fs) == CountPressed(es) + (if Pressed(e) then 1 else 0)
      && (forall k :: CountKind(fs, k) == CountKind(es, k) + if KindOf(es, e) == k then 1 else 0)
  {
    hide Ascii;
    assert (es + [e])[..|es|] == es;
  }
}
