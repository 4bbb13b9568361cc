/** The keyboard ring buffer of keyboard.c, its interrupt handler, and their interleaving with a reader. */
module Keyboard {
  const BUFFER_SIZE: nat := 256

  // ---------------------------------------------------------------- the ring

  datatype Ring = Ring(buffer: seq<char>, readPos: nat, writePos: nat)
  {
    predicate Ok() {
      |buffer| == BUFFER_SIZE && readPos < BUFFER_SIZE && writePos < BUFFER_SIZE
    }

    function Count(): nat
      requires Ok()
    {
      if writePos >= readPos then writePos - readPos else BUFFER_SIZE - readPos + writePos
    }

    /** The characters written and not yet read, oldest first. */
    function Unread(): (s: seq<char>)
      requires Ok()
      ensures |s| == Count()
    {
      if writePos >= readPos then buffer[readPos..writePos] else buffer[readPos..] + buffer[..writePos]
    }
  }

  function Succ(pos: nat): nat {
    (pos + 1) % BUFFER_SIZE
  }

  /** keyboard_buffer_push: a character that finds the buffer full is dropped. */
  function Push(r: Ring, c: char): Ring
    requires r.Ok()
  {
    if Succ(r.writePos) != r.readPos
    then r.(buffer := r.buffer[r.writePos := c], writePos := Succ(r.writePos))
    else r
  }

  function Advance(r: Ring): Ring {
    r.(readPos := Succ(r.readPos))
  }

  predicate Full(r: Ring) {
    Succ(r.writePos) == r.readPos
  }

  /** A push appends to what is unread unless BUFFER_SIZE - 1 characters are waiting; nothing unread is overwritten. */
  lemma PushAppends(r: Ring, c: char)
    requires r.Ok()
    ensures Push(r, c).Ok()
    ensures Full(r) <==> r.Count() == 255
    ensures Push(r, c).readPos == r.readPos
    ensures Push(r, c).Unread() == if Full(r) then r.Unread() else r.Unread() + [c]
  {
  }

  /** Reading takes the oldest character. */
  lemma AdvanceDropsFirst(r: Ring)
    requires r.Ok() && r.readPos != r.writePos
    ensures Advance(r).Ok() && r.Unread() != []
    ensures r.Unread()[0] == r.buffer[r.readPos] && Advance(r).Unread() == r.Unread()[1..]
  {
    hide Succ;
    var i, w := r.readPos, r.writePos;
    SuccMeaning(i);
    if i < w {
      FirstOfSlice(r.buffer, i, w);
      FirstAndRest(r.Unread(), r.buffer[i], r.buffer[i + 1..w]);
    } else {
      FirstOfWrap(r.buffer, i, w);
      FirstAndRest(r.Unread(), r.buffer[i], r.buffer[i + 1..] + r.buffer[..w]);
      NothingAtEnd(r.buffer, i, w);
    }
  }

  lemma SuccMeaning(pos: nat)
    requires pos < BUFFER_SIZE
    ensures Succ(pos) == if pos + 1 == BUFFER_SIZE then 0 else pos + 1
  {
  }

  lemma FirstOfSlice(b: seq<char>, i: nat, w: nat)
    requires i < w <= |b|
    ensures b[i..w] == [b[i]] + b[i + 1..w]
  {
  }

  lemma FirstOfWrap(b: seq<char>, i: nat, w: nat)
    requires w <= i < |b|
    ensures b[i..] + b[..w] == [b[i]] + (b[i + 1..] + b[..w])
  {
    assert b[i..] == [b[i]] + b[i + 1..];
  }

  lemma NothingAtEnd(b: seq<char>, i: nat, w: nat)
    requires w <= i < |b|
    ensures i + 1 == |b| ==> b[i + 1..] + b[..w] == b[0..w]
  {
  }

  lemma FirstAndRest(s: seq<char>, c: char, rest: seq<char>)
    requires s == [c] + rest
    ensures s[0] == c && s[1..] == rest
  {
  }

  lemma UnreadEmpty(r: Ring)
    requires r.Ok()
    ensures r.Unread() == [] <==> r.readPos == r.writePos
  {
  }

  // ---------------------------------------------------------------- scancodes

  datatype Modifiers = Modifiers(shift: bool, ctrl: bool, alt: bool, caps: bool)

  /** Scancode set 1, in lines of 15, 14, 13, 13 and 3 codes. */
  const DIGIT_LINE: string := "\0\U{1B}1234567890-=\U{8}"
  const TOP_LINE: string := "\tqwertyuiop[]\n"
  const MIDDLE_LINE: string := "\0asdfghjkl;'`"
  const BOTTOM_LINE: string := "\0\\zxcvbnm,./\0"
  const LAST_LINE: string := "*\0 "

  const DIGIT_LINE_SHIFT: string := "\0\U{1B}!@#$%^&*()_+\U{8}"
  const TOP_LINE_SHIFT: string := "\tQWERTYUIOP{}\n"
  const MIDDLE_LINE_SHIFT: string := "\0ASDFGHJKL:\"~"
  const BOTTOM_LINE_SHIFT: string := "\0|ZXCVBNM<>?\0"
  const LAST_LINE_SHIFT: string := "*\0 "

  const SCANCODE_TO_ASCII: string := DIGIT_LINE + TOP_LINE + MIDDLE_LINE + BOTTOM_LINE + LAST_LINE

  const SCANCODE_TO_ASCII_SHIFT: string :=
    DIGIT_LINE_SHIFT + TOP_LINE_SHIFT + MIDDLE_LINE_SHIFT + BOTTOM_LINE_SHIFT + LAST_LINE_SHIFT

  function Upper(c: char): char {
    if 'a' <= c <= 'z' then (c as int - 32) as char else c
  }

  /** The modifier flags after a scancode. */
  function Press(m: Modifiers, code: nat): Modifiers {
    match code
    case 0x2A => m.(shift := true)
    case 0x36 => m.(shift := true)
    case 0xAA => m.(shift := false)
    case 0xB6 => m.(shift := false)
    case 0x1D => m.(ctrl := true)
    case 0x9D => m.(ctrl := false)
    case 0x38 => m.(alt := true)
    case 0xB8 => m.(alt := false)
    case 0x3A => m.(caps := !m.caps)
    case _ => m
  }

  predicate IsModifierCode(code: nat) {
    code in {0x2A, 0x36, 0xAA, 0xB6, 0x1D, 0x9D, 0x38, 0xB8, 0x3A}
  }

  /** The character a scancode stands for; NUL when it stands for none. */
  function Decode(m: Modifiers, code: nat): char {
    if IsModifierCode(code) || code >= 0x80 || code >= |SCANCODE_TO_ASCII| then '\0'
    else if m.shift then SCANCODE_TO_ASCII_SHIFT[code]
    else if m.caps then Upper(SCANCODE_TO_ASCII[code])
    else SCANCODE_TO_ASCII[code]
  }

  // ---------------------------------------------------------------- the driver

  class Driver {
    const buffer: array<char>
    var bufferReadPos: nat
    var bufferWritePos: nat
    var shiftPressed: bool
    var ctrlPressed: bool
    var altPressed: bool
    var capsLock: bool

    ghost predicate Valid()
      reads this, buffer
    {
      View().Ok() && '\0' !in View().Unread()
    }

    ghost function View(): Ring
      reads this, buffer
    {
      Ring(buffer[..], bufferReadPos, bufferWritePos)
    }

    function Mods(): Modifiers
      reads this
    {
      Modifiers(shiftPressed, ctrlPressed, altPressed, capsLock)
    }

    constructor ()
      ensures Valid() && View().Unread() == [] && fresh(buffer)
      ensures Mods() == Modifiers(false, false, false, false)
    {
      buffer := new char[BUFFER_SIZE](i => '\0');
      bufferReadPos, bufferWritePos := 0, 0;
      shiftPressed, ctrlPressed, altPressed, capsLock := false, false, false, false;
    }

    method BufferPush(c: char)
      requires Valid() && c != '\0'
      modifies this`bufferWritePos, buffer
      ensures Valid() && View() == Push(old(View()), c)
    {
      PushAppends(View(), c);
      var nextPos := (bufferWritePos + 1) % BUFFER_SIZE;
      if nextPos != bufferReadPos {
        buffer[bufferWritePos] := c;
        bufferWritePos := nextPos;
      }
    }

    /** NUL means that nothing was waiting, and nothing else does. */
    method GetcharNonblock() returns (c: char)
      requires Valid()
      modifies this`bufferReadPos
      ensures Valid()
      ensures c == '\0' <==> old(View().Unread()) == []
      ensures old(View().Unread()) == (if c == '\0' then [] else [c]) + View().Unread()
    {
      hide Ring.Unread;
      ghost var unread := View().Unread();
      UnreadEmpty(View());
      if bufferReadPos == bufferWritePos {
        return '\0';
      }
      AdvanceDropsFirst(View());
      assert unread == [unread[0]] + unread[1..];
      c := buffer[bufferReadPos];
      bufferReadPos := (bufferReadPos + 1) % BUFFER_SIZE;
    }

    /** The result fits the source's uint8_t. */
    method BufferCount() returns (count: nat)
      requires Valid()
      ensures count == |View().Unread()| && count < 256
    {
      if bufferWritePos >= bufferReadPos {
        return bufferWritePos - bufferReadPos;
      } else {
        return BUFFER_SIZE - bufferReadPos + bufferWritePos;
      }
    }

    method ClearBuffer()
      requires Valid()
      modifies this`bufferReadPos, this`bufferWritePos
      ensures Valid() && View().Unread() == []
    {
      bufferReadPos := 0;
      bufferWritePos := 0;
    }

    method Handler(scancode: nat)
      requires Valid() && scancode < 256
      modifies this, buffer
      ensures Valid()
      ensures Mods() == Press(old(Mods()), scancode)
      ensures var c := Decode(old(Mods()), scancode);
        View() == if c == '\0' then old(View()) else Push(old(View()), c)
    {
      match scancode {
        case 0x2A => shiftPressed := true; return;
        case 0x36 => shiftPressed := true; return;
        case 0xAA => shiftPressed := false; return;
        case 0xB6 => shiftPressed := false; return;
        case 0x1D => ctrlPressed := true; return;
        case 0x9D => ctrlPressed := false; return;
        case 0x38 => altPressed := true; return;
        case 0xB8 => altPressed := false; return;
        case 0x3A => capsLock := !capsLock; return;
        case _ =>
      }
      if scancode >= 0x80 { return; }
      var ascii := '\0';
      if scancode < |SCANCODE_TO_ASCII| {
        if shiftPressed {
          ascii := SCANCODE_TO_ASCII_SHIFT[scancode];
        } else {
          ascii := SCANCODE_TO_ASCII[scancode];
          if capsLock && 'a' <= ascii <= 'z' {
            ascii := (ascii as int - 32) as char;
          }
        }
        if ascii != '\0' {
          BufferPush(ascii);
        }
      }
    }
  }

  // ---------------------------------------------------------------- the protocol

  /** Where the reader stands between two of its accesses to the shared variables, with what it has read so far. */
  datatype Reader =
    | Idle
    | ReadFirst(pos: nat)
    | WriteFirst(pos: nat)
    | NotEmpty
    | HasIndex(index: nat)
    | HasChar(c: char)
    | HasNext(c: char, pos: nat)
    | Clearing

  /** What became of a character that the buffer accepted. */
  datatype Fate = Delivered(c: char) | Discarded(c: char)

  /** The shared buffer, the reader, all that was ever accepted from the keyboard, and what became of it so far. */
  datatype System = System(ring: Ring, reader: Reader, accepted: seq<char>, fates: seq<Fate>)

  function Characters(fates: seq<Fate>): (s: seq<char>)
    ensures |s| == |fates|
  {
    seq(|fates|, i requires 0 <= i < |fates| => fates[i].c)
  }

  function DiscardAll(cs: seq<char>): (fates: seq<Fate>)
    ensures |fates| == |cs| && forall i :: 0 <= i < |cs| ==> fates[i] == Discarded(cs[i])
  {
    seq(|cs|, i requires 0 <= i < |cs| => Discarded(cs[i]))
  }

  /** What the program was given. */
  function DeliveredOf(fates: seq<Fate>): seq<char> {
    if fates == [] then []
    else
      var last := fates[|fates| - 1];
      DeliveredOf(fates[..|fates| - 1]) + if last.Delivered? then [last.c] else []
  }

  ghost predicate OnlyDelivered(fates: seq<Fate>) {
    forall f :: f in fates ==> f.Delivered?
  }

  /** The handler runs with interrupts off, so as one step. */
  ghost predicate Interrupt(s: System, s': System, c: char)
    requires s.ring.Ok()
  {
    s' == s.(ring := Push(s.ring, c), accepted := if Full(s.ring) then s.accepted else s.accepted + [c])
  }

  /**
    One access by keyboard_getchar or keyboard_getchar_nonblock. The two positions are compared in either order of
    loading; on an empty buffer the reader starts over or gives up.
   */
  ghost predicate ReadStep(s: System, s': System)
    requires s.ring.Ok()
  {
    match s.reader
    case Idle => s' == s.(reader := ReadFirst(s.ring.readPos)) || s' == s.(reader := WriteFirst(s.ring.writePos))
    case ReadFirst(pos) => s' == s.(reader := if pos == s.ring.writePos then Idle else NotEmpty)
    case WriteFirst(pos) => s' == s.(reader := if s.ring.readPos == pos then Idle else NotEmpty)
    case NotEmpty => s' == s.(reader := HasIndex(s.ring.readPos))
    case HasIndex(index) => index < BUFFER_SIZE && s' == s.(reader := HasChar(s.ring.buffer[index]))
    case HasChar(c) => s' == s.(reader := HasNext(c, s.ring.readPos))
    case HasNext(c, pos) =>
      s' == s.(ring := s.ring.(readPos := Succ(pos)), reader := Idle, fates := s.fates + [Delivered(c)])
    case Clearing => false
  }

  /**
    keyboard_clear_buffer stores its two positions one after the other; with the second, all that was waiting is
    discarded.
   */
  ghost predicate ClearStep(s: System, s': System) {
    match s.reader
    case Idle => s' == s.(ring := s.ring.(readPos := 0), reader := Clearing)
    case Clearing =>
      && |s.fates| <= |s.accepted|
      && s' == s.(ring := s.ring.(writePos := 0), reader := Idle,
                  fates := s.fates + DiscardAll(s.accepted[|s.fates|..]))
    case _ => false
  }

  ghost predicate Next(s: System, s': System) {
    s.ring.Ok() && ((exists c :: Interrupt(s, s', c)) || ReadStep(s, s') || ClearStep(s, s'))
  }

  ghost predicate Initial(s: System) {
    s.ring.Ok() && s.ring.readPos == s.ring.writePos && s.reader == Idle && s.accepted == [] && s.fates == []
  }

  /** What has been accepted is what has met its fate, then what is still unread; and the reader's notes are right. */
  ghost predicate Inv(s: System) {
    && s.ring.Ok()
    && Characters(s.fates) <= s.accepted
    && (s.reader != Clearing ==> s.accepted == Characters(s.fates) + s.ring.Unread())
    && match s.reader
       case Idle => true
       case ReadFirst(pos) => pos == s.ring.readPos
       case WriteFirst(pos) => pos != s.ring.readPos ==> s.ring.Unread() != []
       case NotEmpty => s.ring.Unread() != []
       case HasIndex(index) => s.ring.Unread() != [] && index == s.ring.readPos
       case HasChar(c) => s.ring.Unread() != [] && c == s.ring.Unread()[0]
       case HasNext(c, pos) => s.ring.Unread() != [] && c == s.ring.Unread()[0] && pos == s.ring.readPos
       case Clearing => s.ring.readPos == 0
  }

  lemma InterruptKeepsInv(s: System, s': System, c: char)
    requires Inv(s) && Interrupt(s, s', c)
    ensures Inv(s')
  {
    hide Ring.Unread, Characters;
    PushAppends(s.ring, c);
    var met := Characters(s.fates);
    assert (met + s.ring.Unread()) + [c] == met + (s.ring.Unread() + [c]);
  }

  lemma ReadKeepsInv(s: System, s': System)
    requires Inv(s) && ReadStep(s, s')
    ensures Inv(s')
  {
    hide Ring.Unread, Characters;
    var unread, met := s.ring.Unread(), Characters(s.fates);
    UnreadEmpty(s.ring);
    if s.reader.HasNext? {
      AdvanceDropsFirst(s.ring);
      CharactersAppend(s.fates, [Delivered(unread[0])]);
      assert met + unread == (met + [unread[0]]) + unread[1..];
    } else if unread != [] {
      AdvanceDropsFirst(s.ring);
    }
  }

  lemma CharactersAppend(a: seq<Fate>, b: seq<Fate>)
    ensures Characters(a + b) == Characters(a) + Characters(b)
    ensures |b| == 1 ==> Characters(b) == [b[0].c]
  {
  }

  lemma ClearKeepsInv(s: System, s': System)
    requires Inv(s) && ClearStep(s, s')
    ensures Inv(s')
  {
    if s.reader == Clearing {
      var waiting := s.accepted[|s.fates|..];
      CharactersAppend(s.fates, DiscardAll(waiting));
      assert Characters(DiscardAll(waiting)) == waiting;
      assert s.accepted == Characters(s.fates) + waiting;
      assert s'.accepted == Characters(s'.fates) + s'.ring.Unread();
    }
  }

  lemma NextKeepsInv(s: System, s': System)
    requires Inv(s) && Next(s, s')
    ensures Inv(s')
  {
    hide Inv;
    if c :| Interrupt(s, s', c) {
      InterruptKeepsInv(s, s', c);
    } else if ReadStep(s, s') {
      ReadKeepsInv(s, s');
    } else {
      ClearKeepsInv(s, s');
    }
  }

  ghost predicate IsRun(ss: seq<System>) {
    |ss| > 0 && Initial(ss[0]) && forall k :: 0 <= k && k + 1 < |ss| ==> Next(ss[k], ss[k + 1])
  }

  lemma {:induction false} RunKeepsInv(ss: seq<System>, k: nat)
    requires IsRun(ss) && k < |ss|
    ensures Inv(ss[k])
  {
    hide Inv, Next;
    if k > 0 {
      RunKeepsInv(ss, k - 1);
      assert Next(ss[k - 1], ss[k - 1 + 1]);
      NextKeepsInv(ss[k - 1], ss[k]);
    } else {
      InitialInv(ss[0]);
    }
  }

  lemma InitialInv(s: System)
    requires Initial(s)
    ensures Inv(s)
  {
  }

  /** Neither what was accepted nor what became of it is ever rewritten. */
  lemma {:induction false} RunKeepsHistory(ss: seq<System>, j: nat, k: nat)
    requires IsRun(ss) && j <= k < |ss|
    ensures ss[j].accepted <= ss[k].accepted && ss[j].fates <= ss[k].fates
  {
    hide Next;
    if j < k {
      RunKeepsHistory(ss, j, k - 1);
      assert Next(ss[k - 1], ss[k - 1 + 1]);
      NextExtends(ss[k - 1], ss[k]);
    }
  }

  lemma NextExtends(s: System, s': System)
    requires Next(s, s')
    ensures s.accepted <= s'.accepted && s.fates <= s'.fates
    ensures s.reader != Clearing && OnlyDelivered(s.fates) ==> OnlyDelivered(s'.fates)
  {
  }

  /** Only keyboard_clear_buffer discards. */
  lemma {:induction false} NothingDiscarded(ss: seq<System>, k: nat)
    requires IsRun(ss) && k < |ss| && forall j :: 0 <= j < k ==> ss[j].reader != Clearing
    ensures OnlyDelivered(ss[k].fates)
  {
    hide Next;
    if k > 0 {
      NothingDiscarded(ss, k - 1);
      assert Next(ss[k - 1], ss[k - 1 + 1]);
      NextExtends(ss[k - 1], ss[k]);
    }
  }

  lemma {:induction false} AllDelivered(fates: seq<Fate>)
    requires OnlyDelivered(fates)
    ensures DeliveredOf(fates) == Characters(fates)
  {
    if fates != [] {
      var n := |fates| - 1;
      AllDelivered(fates[..n]);
      assert fates == fates[..n] + [fates[n]];
      CharactersAppend(fates[..n], [fates[n]]);
    }
  }

  /**
    In every interleaving the accepted characters meet their fates in order and the others are all still waiting;
    and as long as the buffer is not cleared, what the program was given is a prefix of what was accepted.
   */
  lemma DeliveredInOrder(ss: seq<System>, k: nat)
    requires IsRun(ss) && k < |ss|
    ensures Characters(ss[k].fates) <= ss[k].accepted
    ensures ss[k].reader != Clearing ==>
      ss[k].ring.Ok() && ss[k].accepted[|ss[k].fates|..] == ss[k].ring.Unread()
    ensures (forall j :: 0 <= j < k ==> ss[j].reader != Clearing) ==> DeliveredOf(ss[k].fates) <= ss[k].accepted
  {
    RunKeepsInv(ss, k);
    if forall j :: 0 <= j < k ==> ss[j].reader != Clearing {
      NothingDiscarded(ss, k);
      AllDelivered(ss[k].fates);
    }
  }
}
