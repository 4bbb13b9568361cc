/** What the scancode tables and modifier flags of keyboard.c amount to: the US layout, and the keys held down. */
module KeyLayout {
  import opened Keyboard

  // ---------------------------------------------------------------- modifiers

  function PressAll(m: Modifiers, codes: seq<nat>): Modifiers {
    if codes == [] then m else Press(PressAll(m, codes[..|codes| - 1]), codes[|codes| - 1])
  }

  /** The last code of the two kinds was a press; with neither, what held before. */
  ghost predicate Held(codes: seq<nat>, press: set<nat>, release: set<nat>, before: bool) {
    || (exists i :: 0 <= i < |codes| && codes[i] in press && forall j :: i < j < |codes| ==> codes[j] !in release)
    || (before && forall i :: 0 <= i < |codes| ==> codes[i] !in release)
  }

  function Count(codes: seq<nat>, code: nat): nat {
    if codes == [] then 0
    else Count(codes[..|codes| - 1], code) + if codes[|codes| - 1] == code then 1 else 0
  }

  lemma HeldByPress(codes: seq<nat>, press: set<nat>, release: set<nat>, before: bool)
    requires codes != [] && codes[|codes| - 1] in press
    ensures Held(codes, press, release, before)
  {
    assert codes[|codes| - 1] in press;
  }

  lemma HeldByRelease(codes: seq<nat>, press: set<nat>, release: set<nat>, before: bool)
    requires codes != [] && codes[|codes| - 1] in release && codes[|codes| - 1] !in press
    ensures !Held(codes, press, release, before)
  {
  }

  lemma HeldByOther(rest: seq<nat>, last: nat, press: set<nat>, release: set<nat>, before: bool)
    requires last !in press && last !in release
    ensures Held(rest + [last], press, release, before) <==> Held(rest, press, release, before)
  {
    var codes := rest + [last];
    assert forall i :: 0 <= i < |rest| ==> codes[i] == rest[i];
    if i :| 0 <= i < |rest| && rest[i] in press && forall j :: i < j < |rest| ==> rest[j] !in release {
      assert codes[i] in press && forall j :: i < j < |codes| ==> codes[j] !in release;
    }
  }

  lemma HeldStep(codes: seq<nat>, press: set<nat>, release: set<nat>, before: bool)
    requires codes != [] && press !! release
    ensures var last := codes[|codes| - 1];
      Held(codes, press, release, before) <==>
        last in press || (last !in release && Held(codes[..|codes| - 1], press, release, before))
  {
    hide Held;
    var rest, last := codes[..|codes| - 1], codes[|codes| - 1];
    assert codes == rest + [last];
    if last in press {
      HeldByPress(codes, press, release, before);
    } else if last in release {
      HeldByRelease(codes, press, release, before);
    } else {
      HeldByOther(rest, last, press, release, before);
    }
  }

  /**
    After any sequence of scancodes: shift is held when the last code of either shift key was a press, ctrl and alt
    likewise, and caps lock has changed once for each of its presses. No other code matters.
   */
  lemma {:induction false} ModifiersAfter(m: Modifiers, codes: seq<nat>)
    ensures var r := PressAll(m, codes);
      && (r.shift <==> Held(codes, {0x2A, 0x36}, {0xAA, 0xB6}, m.shift))
      && (r.ctrl <==> Held(codes, {0x1D}, {0x9D}, m.ctrl))
      && (r.alt <==> Held(codes, {0x38}, {0xB8}, m.alt))
      && (r.caps <==> (m.caps != (Count(codes, 0x3A) % 2 == 1)))
  {
    hide Held, Press;
    if codes == [] {
      NothingHeld({0x2A, 0x36}, {0xAA, 0xB6}, m.shift);
      NothingHeld({0x1D}, {0x9D}, m.ctrl);
      NothingHeld({0x38}, {0xB8}, m.alt);
    } else {
      ModifiersAfter(m, codes[..|codes| - 1]);
      PressFlags(PressAll(m, codes[..|codes| - 1]), codes[|codes| - 1]);
      HeldStep(codes, {0x2A, 0x36}, {0xAA, 0xB6}, m.shift);
      HeldStep(codes, {0x1D}, {0x9D}, m.ctrl);
      HeldStep(codes, {0x38}, {0xB8}, m.alt);
    }
  }

  lemma PressFlags(m: Modifiers, code: nat)
    ensures var r := Press(m, code);
      && (r.shift <==> code in {0x2A, 0x36} || (m.shift && code !in {0xAA, 0xB6}))
      && (r.ctrl <==> code in {0x1D} || (m.ctrl && code !in {0x9D}))
      && (r.alt <==> code in {0x38} || (m.alt && code !in {0xB8}))
      && (r.caps <==> m.caps != (code == 0x3A))
  {
  }

  lemma NothingHeld(press: set<nat>, release: set<nat>, before: bool)
    ensures Held([], press, release, before) == before
  {
  }

  // ---------------------------------------------------------------- the layout

  const NoModifiers: Modifiers := Modifiers(false, false, false, false)

  predicate IsLetter(c: char) {
    'a' <= c <= 'z'
  }

  /** The keys of the US layout that type letters. */
  function LetterKey(c: char): nat {
    match c
    case 'q' => 0x10
    case 'w' => 0x11
    case 'e' => 0x12
    case 'r' => 0x13
    case 't' => 0x14
    case 'y' => 0x15
    case 'u' => 0x16
    case 'i' => 0x17
    case 'o' => 0x18
    case 'p' => 0x19
    case 'a' => 0x1E
    case 's' => 0x1F
    case 'd' => 0x20
    case 'f' => 0x21
    case 'g' => 0x22
    case 'h' => 0x23
    case 'j' => 0x24
    case 'k' => 0x25
    case 'l' => 0x26
    case 'z' => 0x2C
    case 'x' => 0x2D
    case 'c' => 0x2E
    case 'v' => 0x2F
    case 'b' => 0x30
    case 'n' => 0x31
    case 'm' => 0x32
    case _ => 0
  }

  /** The keys that type every other character. */
  function SymbolKey(c: char): nat {
    match c
    case '\U{1B}' => 0x01
    case '1' => 0x02
    case '2' => 0x03
    case '3' => 0x04
    case '4' => 0x05
    case '5' => 0x06
    case '6' => 0x07
    case '7' => 0x08
    case '8' => 0x09
    case '9' => 0x0A
    case '0' => 0x0B
    case '-' => 0x0C
    case '=' => 0x0D
    case '\U{8}' => 0x0E
    case '\t' => 0x0F
    case '[' => 0x1A
    case ']' => 0x1B
    case '\n' => 0x1C
    case ';' => 0x27
    case '\'' => 0x28
    case '`' => 0x29
    case '\\' => 0x2B
    case ',' => 0x33
    case '.' => 0x34
    case '/' => 0x35
    case '*' => 0x37
    case ' ' => 0x39
    case _ => 0
  }

  /** The key that types a character without modifiers; 0 for other characters. */
  function KeyOf(c: char): nat {
    if IsLetter(c) then LetterKey(c) else SymbolKey(c)
  }

  /** What the same key types with shift. */
  function Shifted(c: char): char {
    match c
    case '1' => '!'
    case '2' => '@'
    case '3' => '#'
    case '4' => '$'
    case '5' => '%'
    case '6' => '^'
    case '7' => '&'
    case '8' => '*'
    case '9' => '('
    case '0' => ')'
    case '-' => '_'
    case '=' => '+'
    case '[' => '{'
    case ']' => '}'
    case ';' => ':'
    case '\'' => '"'
    case '`' => '~'
    case '\\' => '|'
    case ',' => '<'
    case '.' => '>'
    case '/' => '?'
    case _ => if IsLetter(c) then (c as int - 32) as char else c
  }

  lemma DigitLine(k: nat)
    requires k < 15
    ensures SCANCODE_TO_ASCII[k] == DIGIT_LINE[k]
    ensures SCANCODE_TO_ASCII_SHIFT[k] == DIGIT_LINE_SHIFT[k]
  {
  }

  lemma TopLine(k: nat)
    requires k < 14
    ensures SCANCODE_TO_ASCII[15 + k] == TOP_LINE[k]
    ensures SCANCODE_TO_ASCII_SHIFT[15 + k] == TOP_LINE_SHIFT[k]
  {
  }

  lemma MiddleLine(k: nat)
    requires k < 13
    ensures SCANCODE_TO_ASCII[29 + k] == MIDDLE_LINE[k]
    ensures SCANCODE_TO_ASCII_SHIFT[29 + k] == MIDDLE_LINE_SHIFT[k]
  {
  }

  lemma BottomLine(k: nat)
    requires k < 13
    ensures SCANCODE_TO_ASCII[42 + k] == BOTTOM_LINE[k]
    ensures SCANCODE_TO_ASCII_SHIFT[42 + k] == BOTTOM_LINE_SHIFT[k]
  {
  }

  lemma LastLine(k: nat)
    requires k < 3
    ensures SCANCODE_TO_ASCII[55 + k] == LAST_LINE[k]
    ensures SCANCODE_TO_ASCII_SHIFT[55 + k] == LAST_LINE_SHIFT[k]
  {
  }

  lemma DigitKeys(k: nat)
    requires k < 15
    ensures var c := DIGIT_LINE[k]; c != '\0' ==> KeyOf(c) == k
  {
  }

  lemma DigitShifted(k: nat)
    requires k < 15
    ensures DIGIT_LINE[k] != '\0' ==> Shifted(DIGIT_LINE[k]) == DIGIT_LINE_SHIFT[k]
  {
  }

  lemma TopKeys(k: nat)
    requires k < 14
    ensures var c := TOP_LINE[k]; c != '\0' ==> KeyOf(c) == 15 + k
  {
  }

  lemma TopShifted(k: nat)
    requires k < 14
    ensures TOP_LINE[k] != '\0' ==> Shifted(TOP_LINE[k]) == TOP_LINE_SHIFT[k]
  {
  }

  lemma MiddleKeys(k: nat)
    requires k < 13
    ensures var c := MIDDLE_LINE[k]; c != '\0' ==> KeyOf(c) == 29 + k
  {
  }

  lemma MiddleShifted(k: nat)
    requires k < 13
    ensures MIDDLE_LINE[k] != '\0' ==> Shifted(MIDDLE_LINE[k]) == MIDDLE_LINE_SHIFT[k]
  {
  }

  lemma BottomKeys(k: nat)
    requires k < 13
    ensures var c := BOTTOM_LINE[k]; c != '\0' ==> KeyOf(c) == 42 + k
  {
  }

  lemma BottomShifted(k: nat)
    requires k < 13
    ensures BOTTOM_LINE[k] != '\0' ==> Shifted(BOTTOM_LINE[k]) == BOTTOM_LINE_SHIFT[k]
  {
  }

  lemma LastKeys(k: nat)
    requires k < 3
    ensures var c := LAST_LINE[k]; c != '\0' ==> KeyOf(c) == 55 + k
  {
  }

  lemma LastShifted(k: nat)
    requires k < 3
    ensures LAST_LINE[k] != '\0' ==> Shifted(LAST_LINE[k]) == LAST_LINE_SHIFT[k]
  {
  }

  lemma DigitTypes(c: char)
    requires 0 < KeyOf(c) < 15
    ensures DIGIT_LINE[KeyOf(c)] == c
  {
  }

  lemma TopTypes(c: char)
    requires 15 <= KeyOf(c) < 29
    ensures TOP_LINE[KeyOf(c) - 15] == c
  {
  }

  lemma MiddleTypes(c: char)
    requires 29 <= KeyOf(c) < 42
    ensures MIDDLE_LINE[KeyOf(c) - 29] == c
  {
  }

  lemma BottomTypes(c: char)
    requires 42 <= KeyOf(c) < 55
    ensures BOTTOM_LINE[KeyOf(c) - 42] == c
  {
  }

  lemma LastTypes(c: char)
    requires 55 <= KeyOf(c) < 58
    ensures LAST_LINE[KeyOf(c) - 55] == c
  {
  }

  /** At code `code` the two tables agree with the layout, and modifier keys have no character. */
  predicate Keyed(code: nat) {
    && code < |SCANCODE_TO_ASCII| == 58 == |SCANCODE_TO_ASCII_SHIFT|
    && var c, d := SCANCODE_TO_ASCII[code], SCANCODE_TO_ASCII_SHIFT[code];
       if c == '\0' then d == '\0'
       else KeyOf(c) == code && code > 0 && Shifted(c) == d && !IsModifierCode(code)
  }

  lemma DigitKeyed(k: nat)
    requires k < 15
    ensures Keyed(k)
  {
    hide KeyOf, Shifted;
    DigitLine(k);
    DigitKeys(k);
    DigitShifted(k);
  }

  lemma TopKeyed(k: nat)
    requires k < 14
    ensures Keyed(15 + k)
  {
    hide KeyOf, Shifted;
    TopLine(k);
    TopKeys(k);
    TopShifted(k);
  }

  lemma MiddleKeyed(k: nat)
    requires k < 13
    ensures Keyed(29 + k)
  {
    hide KeyOf, Shifted;
    MiddleLine(k);
    MiddleKeys(k);
    MiddleShifted(k);
  }

  lemma BottomKeyed(k: nat)
    requires k < 13
    ensures Keyed(42 + k)
  {
    hide KeyOf, Shifted;
    BottomLine(k);
    BottomKeys(k);
    BottomShifted(k);
  }

  lemma LastKeyed(k: nat)
    requires k < 3
    ensures Keyed(55 + k)
  {
    hide KeyOf, Shifted;
    LastLine(k);
    LastKeys(k);
    LastShifted(k);
  }

  lemma TableKeys(code: nat)
    requires code < 58
    ensures Keyed(code)
  {
    hide Keyed;
    if code < 15 {
      DigitKeyed(code);
    } else if code < 29 {
      TopKeyed(code - 15);
    } else if code < 42 {
      MiddleKeyed(code - 29);
    } else if code < 55 {
      BottomKeyed(code - 42);
    } else {
      LastKeyed(code - 55);
    }
  }

  /**
    A key types the character whose key it is; with shift the other character of that key; and with caps lock alone
    the capital, if it is a letter. So distinct keys type distinct characters.
   */
  lemma DecodeMeaning(m: Modifiers, code: nat)
    ensures var c := Decode(NoModifiers, code);
      if c == '\0' then Decode(m, code) == '\0'
      else
        && KeyOf(c) == code > 0
        && Decode(m, code)
          == if m.shift then Shifted(c) else if m.caps && IsLetter(c) then (c as int - 32) as char else c
  {
    hide KeyOf, Shifted;
    if code < 58 { TableKeys(code); }
  }

  /** Every character that has a key is typed by it. */
  lemma KeyTypes(c: char)
    requires KeyOf(c) != 0
    ensures Decode(NoModifiers, KeyOf(c)) == c
  {
    var code := KeyOf(c);
    KeyBound(c);
    hide KeyOf;
    TableKeys(code);
    if code < 15 {
      DigitLine(code);
      DigitTypes(c);
    } else if code < 29 {
      TopLine(code - 15);
      TopTypes(c);
    } else if code < 42 {
      MiddleLine(code - 29);
      MiddleTypes(c);
    } else if code < 55 {
      BottomLine(code - 42);
      BottomTypes(c);
    } else {
      LastLine(code - 55);
      LastTypes(c);
    }
  }

  lemma KeyBound(c: char)
    ensures KeyOf(c) < 58
    ensures !IsModifierCode(KeyOf(c))
  {
  }

  /** Releases, modifier keys and codes past the tables type nothing. */
  lemma SilentCodes(m: Modifiers, code: nat)
    requires code >= 58 || code in {0x1D, 0x2A, 0x36, 0x38}
    ensures Decode(m, code) == '\0'
  {
  }

  /** Capitals come from letter keys under shift or caps lock, and from nothing else. */
  lemma CapitalsExactly(m: Modifiers, code: nat)
    ensures 'A' <= Decode(m, code) <= 'Z' <==> IsLetter(Decode(NoModifiers, code)) && (m.shift || m.caps)
  {
    hide KeyOf, Decode;
    DecodeMeaning(m, code);
    DecodeMeaning(NoModifiers, code);
    NoCapitals(Decode(NoModifiers, code));
  }

  /** No key types a capital without modifiers, and only letter keys do with shift. */
  lemma NoCapitals(c: char)
    ensures KeyOf(c) != 0 ==> !('A' <= c <= 'Z')
    ensures KeyOf(c) != 0 ==> ('A' <= Shifted(c) <= 'Z' <==> IsLetter(c))
  {
  }
}
