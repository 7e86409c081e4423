/** The keyboard driver of kernel/keyboard.c: modifier flags, ring buffer and statistics. Interrupt
    handler and reader run as atomic steps. */
module KeyboardDriver {
  import opened Machine
  import opened KeyEvents

  class Keyboard {
    var modifiers: Modifiers
    const buffer: array<Byte>
    var head: nat
    var tail: nat
    var count: nat
    var totalKeypresses: Word
    var totalReleases: Word
    var specialKeys: Word
    var bufferOverflows: Word
    var invalidScancodes: Word

    /** Events since initialisation, and the characters readers were given. */
    ghost var history: seq<Event>
    ghost var delivered: seq<Byte>

    /** The characters in the ring, oldest first. */
    ghost function Contents(): (s: seq<Byte>)
      requires RingValid()
      reads `head, `tail, `count, buffer
      ensures |s| == count
    {
      if tail + count <= BUFFER_SIZE then buffer[tail..tail + count]
      else buffer[tail..] + buffer[..tail + count - BUFFER_SIZE]
    }

    ghost predicate RingValid()
      reads `head, `tail, `count
    {
      && buffer.Length == BUFFER_SIZE && tail < BUFFER_SIZE && count <= BUFFER_SIZE
      && head == if tail + count < BUFFER_SIZE then tail + count else tail + count - BUFFER_SIZE
    }

    ghost predicate StatsValid()
      reads this
    {
      && totalKeypresses == Wrap(CountPressed(history))
      && totalReleases == Wrap(CountKind(history, Release))
      && specialKeys == Wrap(CountKind(history, Special))
      && invalidScancodes == Wrap(CountKind(history, Invalid))
      && bufferOverflows == Wrap(Account(history).dropped)
    }

    /** What was delivered, followed by what is in the ring, is what the event history says was accepted. */
    ghost predicate Valid()
      reads this, buffer
    {
      && RingValid() && StatsValid()
      && modifiers == ModifiersAfter(history)
      && delivered + Contents() == Account(history).accepted
      && |delivered| == Account(history).taken
    }

    /** In every reachable state the counters balance: key presses are the special, invalid and dropped
        ones and the characters accepted, modulo 2^32. */
    lemma StatsBalance()
      requires Valid()
      ensures totalKeypresses ==
        Wrap(specialKeys + invalidScancodes + bufferOverflows + |Account(history).accepted|)
    {
      hide Wrap, Account, CountKind, CountPressed;
      var s, i, d := CountKind(history, Special), CountKind(history, Invalid), Account(history).dropped;
      var a := |Account(history).accepted|;
      PressesAccounted(history);
      WrapSum(s, invalidScancodes + bufferOverflows + a);
      WrapSum(i, s + bufferOverflows + a);
      WrapSum(d, s + i + a);
    }

    constructor ()
      ensures Valid() && history == [] && delivered == [] && fresh(buffer)
    {
      buffer := new Byte[BUFFER_SIZE](_ => 0);
      modifiers := NO_MODIFIERS;
      head, tail, count := 0, 0, 0;
      totalKeypresses, totalReleases, specialKeys, bufferOverflows, invalidScancodes := 0, 0, 0, 0, 0;
      history, delivered := [], [];
    }

    /** `init_keyboard`: everything but the stale ring cells is cleared. */
    method Init()
      requires buffer.Length == BUFFER_SIZE
      modifies this
      ensures Valid() && history == [] && delivered == []
    {
      modifiers := NO_MODIFIERS;
      head, tail, count := 0, 0, 0;
      totalKeypresses, totalReleases, specialKeys, bufferOverflows, invalidScancodes := 0, 0, 0, 0, 0;
      history, delivered := [], [];
    }

    /** `keyboard_buffer_put`. */
    method Put(c: Byte) returns (ok: bool)
      requires RingValid()
      modifies this`head, this`count, buffer
      ensures RingValid() && ok == (old(count) < BUFFER_SIZE)
      ensures Contents() == old(Contents()) + if ok then [c] else []
    {
      if count >= BUFFER_SIZE {
        return false;
      }
      buffer[head] := c;
      head := (head + 1) % BUFFER_SIZE;
      count := count + 1;
      return true;
    }

    /** The oldest character is at the tail, and what follows it is the ring one place on. */
    lemma TailFirst()
      requires RingValid() && count > 0
      ensures Contents() == [buffer[tail]] + Contents()[1..]
      ensures tail + count <= BUFFER_SIZE ==> Contents()[1..] == buffer[tail + 1..tail + count]
      ensures tail + count > BUFFER_SIZE ==>
        Contents()[1..] == buffer[tail + 1..] + buffer[..tail + count - BUFFER_SIZE]
    {
      var s := Contents();
      assert s[0] == buffer[tail];
      assert s == [s[0]] + s[1..];
      if tail + count > BUFFER_SIZE {
        assert buffer[tail..] == [buffer[tail]] + buffer[tail + 1..];
      }
    }

    /** `keyboard_buffer_get`: the oldest character, or 0 from an empty ring. */
    method Take() returns (c: Byte)
      requires RingValid()
      modifies this`tail, this`count
      ensures RingValid()
      ensures old(count) == 0 ==> c == 0 && count == 0
      ensures old(count) > 0 ==> old(Contents()) == [c] + Contents()
    {
      if count == 0 {
        return 0;
      }
      TailFirst();
      ghost var rest := Contents()[1..];
      c := buffer[tail];
      assert (tail + 1) % BUFFER_SIZE == if tail + 1 < BUFFER_SIZE then tail + 1 else 0;
      tail := (tail + 1) % BUFFER_SIZE;
      count := count - 1;
    }

    /** A reader's `keyboard_buffer_get`: it gets the oldest accepted character not yet delivered. */
    method GetChar() returns (c: Byte)
      requires Valid()
      modifies this
      ensures Valid() && history == old(history) + [Get]
      ensures var t := Account(old(history));
        if t.taken < |t.accepted| then c == t.accepted[t.taken] && delivered == old(delivered) + [c]
        else c == 0 && delivered == old(delivered)
    {
      hide Ascii, ModifiersAfter, CountPressed, CountKind, Account, Wrap, Keyboard.Contents;
      ghost var nonEmpty := count > 0;
      OneMore(history, Get);
      c := Take();
      history := history + [Get];
      if nonEmpty {
        delivered := delivered + [c];
      }
    }

    /** `keyboard_interrupt_handler`, given the byte read from the data port. */
    method Interrupt(scancode: Byte)
      requires Valid()
      modifies this, buffer
      ensures Valid() && history == old(history) + [Scan(scancode)] && delivered == old(delivered)
    {
      hide Ascii, ModifiersAfter, CountPressed, CountKind, Account, Wrap, Keyboard.Contents;
      ghost var e := Scan(scancode);
      OneMore(history, e);
      if scancode >= 0x80 {
        WrapCounts(CountKind(history, Release));
        totalReleases := Add32(totalReleases, 1);
        modifiers := OnRelease(modifiers, scancode - 0x80);
      } else {
        WrapCounts(CountPressed(history));
        totalKeypresses := Add32(totalKeypresses, 1);
        HandleKeyPress(scancode);
      }
      history := history + [e];
    }

    /** `handle_key_press`; the events it is told about are recorded by the caller. */
    method HandleKeyPress(scancode: Byte)
      requires scancode < 0x80 && RingValid()
      requires modifiers == ModifiersAfter(history)
      requires specialKeys == Wrap(CountKind(history, Special)) && invalidScancodes == Wrap(CountKind(history, Invalid))
      requires bufferOverflows == Wrap(Account(history).dropped)
      requires delivered + Contents() == Account(history).accepted && |delivered| == Account(history).taken
      modifies this`modifiers, this`specialKeys, this`invalidScancodes, this`bufferOverflows
      modifies this`head, this`count, buffer
      ensures var h := history + [Scan(scancode)];
        && RingValid() && modifiers == ModifiersAfter(h)
        && specialKeys == Wrap(CountKind(h, Special)) && invalidScancodes == Wrap(CountKind(h, Invalid))
        && bufferOverflows == Wrap(Account(h).dropped)
        && delivered + Contents() == Account(h).accepted && |delivered| == Account(h).taken
    {
      hide Ascii, ModifiersAfter, CountPressed, CountKind, Account, Wrap, Keyboard.Contents;
      ghost var e := Scan(scancode);
      OneMore(history, e);
      if IsSpecial(scancode) {
        modifiers := OnPress(modifiers, scancode);
        WrapCounts(CountKind(history, Special));
        specialKeys := Add32(specialKeys, 1);
        return;
      }
      var ascii := Ascii(modifiers.shift, modifiers.caps, scancode);
      assert ascii == CharOf(history, e);
      if ascii != 0 {
        var ok := Put(ascii);
        if !ok {
          WrapCounts(Account(history).dropped);
          bufferOverflows := Add32(bufferOverflows, 1);
        }
      } else {
        WrapCounts(CountKind(history, Invalid));
        invalidScancodes := Add32(invalidScancodes, 1);
      }
    }
  }
}
