/**
 * The character encoder of the keyboard firmware: one ASCII character is
 * turned into the modifier byte (report byte 0) and the first keycode
 * (report byte 2) of an 8-byte boot-keyboard input report.
 *
 * The encoder assigns only those two bytes, each of them only for some
 * characters; every byte it does not assign keeps the value it had.
 */
module KeyEncoder {
  import opened Types

  /** Modifier bits of the boot-keyboard report (byte 0). */
  const LeftCtrl: byte := 0x01
  const LeftShift: byte := 0x02
  const LeftAlt: byte := 0x04
  const LeftGui: byte := 0x08

  /** The report buffer indices the encoder writes. */
  const ModifierByte: nat := 0
  const KeycodeByte: nat := 2

  /** ASCII classification, in place of the C library's `isdigit`, `isalpha` and `isupper`. */
  predicate IsDigit(a: char) { '0' <= a <= '9' }
  predicate IsUpper(a: char) { 'A' <= a <= 'Z' }
  predicate IsLower(a: char) { 'a' <= a <= 'z' }
  predicate IsAlpha(a: char) { IsUpper(a) || IsLower(a) }

  /** The punctuation the encoder knows, apart from digits and letters. */
  const Symbols: set<char> := {' ', '=', ':', '/', '.', '?', '\n', '@', '#', '&', '(', ')', '\'', '!'}

  /** The characters for which the encoder writes anything at all. */
  predicate Supported(a: char) { IsDigit(a) || IsAlpha(a) || a in Symbols }

  /**
   * What the encoder writes for one character: the value it stores into the
   * modifier byte, if it stores one, and the value it stores into the
   * keycode byte, if it stores one.
   */
  datatype Stroke = Stroke(modifier: Option<byte>, keycode: Option<byte>)

  const NoStroke := Stroke(None, None)

  /** The encoder's decision table. */
  function KeyStroke(a: char): (s: Stroke)
    ensures s == NoStroke <==> !Supported(a)
    ensures IsDigit(a) ==> s.modifier == None && s.keycode.Some? && 30 <= s.keycode.value <= 39
    ensures IsAlpha(a) ==> s.keycode.Some? && 4 <= s.keycode.value <= 29
    ensures IsAlpha(a) ==> s.modifier == if IsUpper(a) then Some(LeftShift) else None
  {
    if IsDigit(a) then
      if a == '0' then Stroke(None, Some(39))
      else Stroke(None, Some((29 + (a as int - '0' as int)) as byte))
    else if IsAlpha(a) then
      if IsUpper(a) then Stroke(Some(LeftShift), Some((a as int - 61) as byte))
      else Stroke(None, Some((a as int - 93) as byte))
    else if a == ' ' then Stroke(None, Some(44))
    else if a == '=' then Stroke(None, Some(46))
    else if a == ':' then Stroke(Some(LeftShift), Some(51))
    else if a == '/' then Stroke(None, Some(56))
    else if a == '.' then Stroke(None, Some(55))
    else if a == '?' then Stroke(Some(LeftShift), Some(56))
    else if a == '\n' then Stroke(None, Some(88))
    else if a == '@' then Stroke(Some(LeftGui), None)
    else if a == '#' then Stroke(Some(LeftCtrl), Some(22))
    else if a == '&' then Stroke(Some(LeftAlt), Some(61))
    else if a == '(' then Stroke(Some(LeftShift), Some(38))
    else if a == ')' then Stroke(Some(LeftShift), Some(39))
    else if a == '\'' then Stroke(None, Some(52))
    else if a == '!' then Stroke(Some(LeftShift), Some(30))
    else NoStroke
  }

  /** Stores a stroke into a report buffer; unassigned bytes keep their values. */
  function Apply(s: Stroke, buf: seq<byte>): (r: seq<byte>)
    requires |buf| > KeycodeByte
    ensures |r| == |buf|
    ensures r[ModifierByte] == if s.modifier.Some? then s.modifier.value else buf[ModifierByte]
    ensures r[KeycodeByte] == if s.keycode.Some? then s.keycode.value else buf[KeycodeByte]
    ensures forall i :: 0 <= i < |buf| && i != ModifierByte && i != KeycodeByte ==> r[i] == buf[i]
  {
    var withModifier := if s.modifier.Some? then buf[ModifierByte := s.modifier.value] else buf;
    if s.keycode.Some? then withModifier[KeycodeByte := s.keycode.value] else withModifier
  }

  /** The report buffer after the encoder has processed character `a`. */
  function Format(a: char, buf: seq<byte>): (r: seq<byte>)
    requires |buf| > KeycodeByte
    ensures |r| == |buf|
    ensures forall i :: 0 <= i < |buf| && i != ModifierByte && i != KeycodeByte ==> r[i] == buf[i]
    ensures !Supported(a) ==> r == buf
  {
    Apply(KeyStroke(a), buf)
  }

  /**
   * The encoder itself, writing into the caller's buffer in place. Its body is
   * the source's chain of tests; its contract ties it to the decision table.
   */
  method StringFormating(a: char, buf: array<byte>)
    requires buf.Length > KeycodeByte
    modifies buf
    ensures buf[..] == Format(a, old(buf[..]))
  {
    if IsDigit(a) {
      if a == '0' {
        buf[2] := 39;
      } else {
        var b := a as int - '0' as int;
        buf[2] := (29 + b) as byte;
      }
    } else if IsAlpha(a) {
      if IsUpper(a) {
        buf[0] := 2;
        var b := a as int;
        buf[2] := (b - 61) as byte;
      } else {
        var b := a as int;
        buf[2] := (b - 93) as byte;
      }
    } else if a == ' ' {
      buf[2] := 44;
    } else if a == '=' {
      buf[2] := 46;
    } else if a == ':' {
      buf[0] := 2;
      buf[2] := 51;
    } else if a == '/' {
      buf[2] := 56;
    } else if a == '.' {
      buf[2] := 55;
    } else if a == '?' {
      buf[0] := 2;
      buf[2] := 56;
    } else if a == '\n' {
      buf[2] := 88;
    } else if a == '@' {
      buf[0] := 0x08;
    } else if a == '#' {
      buf[0] := 0x01;
      buf[2] := 22;
    } else if a == '&' {
      buf[0] := 0x04;
      buf[2] := 61;
    } else if a == '(' {
      buf[0] := 2;
      buf[2] := 38;
    } else if a == ')' {
      buf[0] := 2;
      buf[2] := 39;
    } else if a == '\'' {
      buf[2] := 52;
    } else if a == '!' {
      buf[0] := 2;
      buf[2] := 30;
    }
  }

  // ---------------------------------------------------------------------
  // The decision table against the usage order of the HID keyboard page:
  // letters 'a'..'z' are usages 4..29, digits '1'..'9','0' usages 30..39.

  const LetterRow: seq<char> := "abcdefghijklmnopqrstuvwxyz"
  const DigitRow: seq<char> := "1234567890"

  /** The i-th key of the digit row has keycode 30 + i, with no modifier. */
  lemma DigitRowKeycodes(i: nat)
    requires i < |DigitRow|
    ensures KeyStroke(DigitRow[i]) == Stroke(None, Some((30 + i) as byte))
  {
    if i < 9 {
      assert DigitRow[i] as int == '1' as int + i;
    } else {
      assert DigitRow[i] == '0';
    }
  }

  /**
   * The i-th letter has keycode 4 + i in both cases; only the capital adds
   * the left-shift modifier.
   */
  lemma LetterRowKeycodes(i: nat)
    requires i < |LetterRow|
    ensures KeyStroke(LetterRow[i]) == Stroke(None, Some((4 + i) as byte))
    ensures KeyStroke(((LetterRow[i] as int) - 32) as char) == Stroke(Some(LeftShift), Some((4 + i) as byte))
  {
    assert LetterRow[i] as int == 'a' as int + i;
  }

  /** The two cases of a letter share their keycode. */
  lemma CaseSharesKeycode(lower: char)
    requires IsLower(lower)
    ensures KeyStroke((lower as int - 32) as char).keycode == KeyStroke(lower).keycode
  {
  }

  /** Space and newline: unshifted keys, newline being the keypad Enter key. */
  lemma WhitespaceStrokes()
    ensures KeyStroke(' ') == Stroke(None, Some(44))
    ensures KeyStroke('\n') == Stroke(None, Some(88))
  {
  }

  /** The unshifted punctuation keys: a keycode and no modifier. */
  lemma UnshiftedSymbolStrokes()
    ensures KeyStroke('=') == Stroke(None, Some(46))
    ensures KeyStroke('/') == Stroke(None, Some(56))
    ensures KeyStroke('.') == Stroke(None, Some(55))
    ensures KeyStroke('\'') == Stroke(None, Some(52))
  {
  }

  /** The shifted punctuation keys: left shift plus the unshifted key. */
  lemma ShiftedSymbolStrokes()
    ensures KeyStroke(':') == Stroke(Some(LeftShift), Some(51))
    ensures KeyStroke('?') == Stroke(Some(LeftShift), Some(56))
    ensures KeyStroke('(') == Stroke(Some(LeftShift), Some(38))
    ensures KeyStroke(')') == Stroke(Some(LeftShift), Some(39))
    ensures KeyStroke('!') == Stroke(Some(LeftShift), Some(30))
  {
  }

  /**
   * The three shortcut characters: '@' presses the GUI key alone, '#' is
   * Ctrl+S, '&' is Alt+F4.
   */
  lemma ShortcutStrokes()
    ensures KeyStroke('@') == Stroke(Some(LeftGui), None)
    ensures KeyStroke('#') == Stroke(Some(LeftCtrl), Some(22))
    ensures KeyStroke('&') == Stroke(Some(LeftAlt), Some(61))
  {
  }

  /** The string terminator is not a key: encoding it changes no byte. */
  lemma NulChangesNothing(buf: seq<byte>)
    requires |buf| > KeycodeByte
    ensures Format('\0', buf) == buf
  {
  }
}
