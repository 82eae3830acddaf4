/** The editing rules of a text box (the mixin `TypeFuncs` of the graphical
    front end): deleting the last character and typing a printable or a
    digit character while the box is selected, resizing the box to its text
    when a character size is known. */
module TypeFuncs {
  import opened Options

  /** A character with code 32..126, which `type_alphanum` accepts. */
  predicate IsPrintable(c: char) { 32 <= c as int <= 126 }

  /** A character with code 48..57 ('0'..'9'), which `type_numeric` accepts. */
  predicate IsDigit(c: char) { 48 <= c as int <= 57 }

  /** The text after typing `unicode` into a box holding `text`: only a
      single accepted character, and only while the box is selected, is
      appended. */
  function Typed(text: string, selected: bool, unicode: string, accept: char -> bool): (r: string)
    ensures r == text || r == text + unicode
    ensures r != text <==> selected && |unicode| == 1 && accept(unicode[0])
  {
    if |unicode| == 1 && selected && accept(unicode[0]) then text + unicode else text
  }

  /** The text after a backspace: one character shorter when the box is
      selected and not empty, otherwise the same. */
  function Erased(text: string, selected: bool): (r: string)
    ensures selected && |text| > 0 ==> |r| == |text| - 1 && r + [text[|text| - 1]] == text
    ensures !(selected && |text| > 0) ==> r == text
  {
    if selected && |text| > 0 then text[..|text| - 1] else text
  }

  /** A backspace removes exactly the character that typing added. */
  lemma EraseUndoesTyping(text: string, c: char, accept: char -> bool)
    requires accept(c)
    ensures Erased(Typed(text, true, [c], accept), true) == text
  {
    assert (text + [c])[..|text|] == text;
  }

  /** Every character the numeric field accepts the plain field accepts
      too, so typing into a numeric field does what typing into a plain one
      would, or nothing. */
  lemma NumericTypingIsAlphanumTyping(text: string, selected: bool, unicode: string)
    ensures var n := Typed(text, selected, unicode, IsDigit);
      n == text || n == Typed(text, selected, unicode, IsPrintable)
  {
  }

  class TextBox {
    var text: string
    var selected: bool
    /** The width and height of one character, when known. */
    var charSize: Option<(int, int)>
    var dimensionsPx: Option<(int, int)>

    /** The box is sized to its text: with a known character size it is as
        wide as its characters and one character high. */
    predicate Fitted()
      reads this
    {
      charSize.Some? ==> dimensionsPx == Some((charSize.value.0 * |text|, charSize.value.1))
    }

    constructor (text: string, selected: bool, charSize: Option<(int, int)>, dimensionsPx: Option<(int, int)>)
      ensures this.text == text && this.selected == selected
      ensures this.charSize == charSize && this.dimensionsPx == dimensionsPx
    {
      this.text := text;
      this.selected := selected;
      this.charSize := charSize;
      this.dimensionsPx := dimensionsPx;
    }

    /** `update_text`, which each concrete box defines; here it stores the
        new text. */
    method UpdateText(newText: string)
      modifies this
      ensures text == newText
      ensures selected == old(selected) && charSize == old(charSize) && dimensionsPx == old(dimensionsPx)
    {
      text := newText;
    }

    /** `backspace` */
    method Backspace()
      modifies this
      ensures text == Erased(old(text), old(selected))
      ensures selected == old(selected) && charSize == old(charSize)
      ensures dimensionsPx ==
        if old(selected) && |old(text)| > 0 && charSize.Some? then Some((charSize.value.0 * |text|, charSize.value.1))
        else old(dimensionsPx)
      ensures old(Fitted()) ==> Fitted()
    {
      if selected && |text| > 0 {
        if charSize.Some? {
          dimensionsPx := Some((charSize.value.0 * (|text| - 1), charSize.value.1));
        }
        UpdateText(text[..|text| - 1]);
      }
    }

    /** `type_alphanum` */
    method TypeAlphanum(unicode: string)
      modifies this
      ensures text == Typed(old(text), old(selected), unicode, IsPrintable)
      ensures selected == old(selected) && charSize == old(charSize)
      ensures dimensionsPx ==
        if text != old(text) && charSize.Some? then Some((charSize.value.0 * |text|, charSize.value.1))
        else old(dimensionsPx)
      ensures old(Fitted()) ==> Fitted()
    {
      if |unicode| != 1 {
        return;
      }
      if selected && 32 <= unicode[0] as int <= 126 {
        if charSize.Some? {
          dimensionsPx := Some((charSize.value.0 * (|text| + 1), charSize.value.1));
        }
        UpdateText(text + unicode);
      }
    }

    /** `type_numeric` */
    method TypeNumeric(unicode: string)
      modifies this
      ensures text == Typed(old(text), old(selected), unicode, IsDigit)
      ensures selected == old(selected) && charSize == old(charSize)
      ensures dimensionsPx ==
        if text != old(text) && charSize.Some? then Some((charSize.value.0 * |text|, charSize.value.1))
        else old(dimensionsPx)
      ensures old(Fitted()) ==> Fitted()
    {
      if |unicode| != 1 {
        return;
      }
      if selected && 48 <= unicode[0] as int <= 57 {
        if charSize.Some? {
          dimensionsPx := Some((charSize.value.0 * (|text| + 1), charSize.value.1));
        }
        UpdateText(text + unicode);
      }
    }
  }
}
