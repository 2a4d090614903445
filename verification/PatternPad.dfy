/** Padding of a pattern's fields. */
module PatternPad {
  const MAX_WIDTH: nat := 128

  datatype Side = Left | Right | Center

  /** A field's minimum width and the side the padding goes to; width 0 means none. */
  datatype Padding = Padding(width: nat, side: Side) {
    predicate Enabled() {
      width != 0
    }

    predicate Bounded() {
      width <= MAX_WIDTH
    }
  }

  const NO_PADDING := Padding(0, Left)

  function Spaces(n: nat): (s: string)
    ensures |s| == n
  {
    seq(n, _ => ' ')
  }

  function Total(p: Padding, size: nat): nat {
    if p.width <= size then 0 else p.width - size
  }

  function Before(p: Padding, size: nat): (n: nat)
    ensures n <= Total(p, size)
  {
    match p.side
    case Left => Total(p, size)
    case Center => Total(p, size) / 2
    case Right => 0
  }

  /** A text padded by the size it is said to have. */
  function PaddedAs(text: string, size: nat, p: Padding): string {
    Spaces(Before(p, size)) + text + Spaces(Total(p, size) - Before(p, size))
  }

  function PadText(text: string, p: Padding): string {
    PaddedAs(text, |text|, p)
  }

  /** The field is as wide as asked. */
  predicate Honoured(text: string, size: nat, p: Padding) {
    |PaddedAs(text, size, p)| == if p.width > |text| then p.width else |text|
  }

  /** The field is as wide as asked exactly when the size is true, or no padding is
      called for by it nor by the text. */
  lemma WidthHonoured(text: string, size: nat, p: Padding)
    ensures Honoured(text, size, p)
       <==> |text| == size || (p.width <= size && p.width <= |text|)
  {
  }

  /** A padded field is max(width, size) long; the text is in it, with nothing but
      spaces around it, all to the left, all to the right, or half on either side with
      an odd one to the right. */
  lemma PaddedField(text: string, p: Padding)
    ensures var field, before := PadText(text, p), Before(p, |text|);
            var after := |field| - |text| - before;
            && |field| == (if p.width > |text| then p.width else |text|)
            && after >= 0
            && field[before..before + |text|] == text
            && (forall i :: 0 <= i < before || before + |text| <= i < |field| ==> field[i] == ' ')
            && (p.side == Left ==> after == 0)
            && (p.side == Right ==> before == 0)
            && (p.side == Center ==> before <= after <= before + 1)
  {
    var before := Before(p, |text|);
    assert PadText(text, p)[before..before + |text|] == text;
  }

  lemma UnpaddedField(text: string, p: Padding)
    requires p.width <= |text|
    ensures PadText(text, p) == text
  {
    assert Spaces(0) + text + Spaces(0) == text;
  }

  lemma NoSpaces(text: string, size: nat)
    ensures PaddedAs(text, size, NO_PADDING) == text
  {
    assert Spaces(0) + text + Spaces(0) == text;
  }

  class MemoryBuffer {
    var text: string

    constructor ()
      ensures text == ""
    {
      text := "";
    }

    method Append(s: string)
      modifies this
      ensures text == old(text) + s
    {
      text := text + s;
    }
  }

  /** Pads before the field when it is made and after the field when it is closed. */
  class ScopedPad {
    const padinfo: Padding
    const dest: MemoryBuffer
    var totalPad: nat

    constructor (wrappedSize: nat, padinfo: Padding, dest: MemoryBuffer)
      requires padinfo.Bounded()
      modifies dest
      ensures this.dest == dest
      ensures dest.text == old(dest.text) + Spaces(Before(padinfo, wrappedSize))
      ensures totalPad == Total(padinfo, wrappedSize) - Before(padinfo, wrappedSize) <= MAX_WIDTH
    {
      this.padinfo, this.dest := padinfo, dest;
      totalPad := 0;
      new;
      assert Spaces(0) == "";
      if padinfo.width <= wrappedSize {
        return;
      }
      totalPad := padinfo.width - wrappedSize;
      if padinfo.side == Left {
        PadIt(totalPad);
        totalPad := 0;
      } else if padinfo.side == Center {
        var halfPad := totalPad / 2;
        var reminder := totalPad % 2;
        PadIt(halfPad);
        totalPad := halfPad + reminder;
      }
    }

    /** The end of the scope. */
    method Close()
      requires totalPad <= MAX_WIDTH
      modifies dest
      ensures dest.text == old(dest.text) + Spaces(totalPad)
    {
      assert Spaces(0) == "";
      if totalPad != 0 {
        PadIt(totalPad);
      }
    }

    /** The source asserts that the row of spaces is long enough. */
    method PadIt(count: nat)
      requires count <= MAX_WIDTH
      modifies dest
      ensures dest.text == old(dest.text) + Spaces(count)
    {
      dest.Append(Spaces(MAX_WIDTH)[..count]);
    }
  }

  /** A field of the kind of the logger's name, the level or the message. */
  method AppendField(text: string, padinfo: Padding, dest: MemoryBuffer)
    requires padinfo.Bounded()
    modifies dest
    ensures dest.text == old(dest.text) + PadText(text, padinfo)
  {
    if padinfo.Enabled() {
      var p := new ScopedPad(|text|, padinfo, dest);
      dest.Append(text);
      p.Close();
    } else {
      UnpaddedField(text, padinfo);
      dest.Append(text);
    }
  }

  /** A field of time, which declares its size before it writes its text. */
  method AppendDeclared(text: string, size: nat, padinfo: Padding, dest: MemoryBuffer)
    requires padinfo.Bounded()
    modifies dest
    ensures dest.text == old(dest.text) + PaddedAs(text, size, padinfo)
  {
    var p := new ScopedPad(size, padinfo, dest);
    dest.Append(text);
    p.Close();
  }
}
