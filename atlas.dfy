/**
 * The glyph atlas and the text writer of src/glyphs.c.
 *
 * A `Font` owns 256 glyph slots and a 2048-byte text buffer, both zeroed on
 * allocation. Building the atlas writes the two-byte C string {i, '\0'} for
 * every byte value i into the buffer, points slot i at it, gives every slot
 * but the one holding the empty string a texture, and records the size the
 * font measures for that string. The writer draws a NUL-terminated byte
 * string one glyph at a time, moving right by each glyph's width.
 *
 * The font library is abstract: its line height is a number and its text
 * measurement a function `Measure`; a texture is only "present" or not, and a
 * draw is recorded as the slot whose texture is copied and the destination
 * rectangle.
 */
module Atlas {

  /** A byte of a C string, read as `unsigned char`. */
  type Byte = b: int | 0 <= b < 256

  datatype Option<T> = None | Some(value: T)

  /** Width and height as TTF_SizeUTF8 reports them. */
  datatype Size = Size(w: int, h: int)

  /** The font's text measurement, applied to the bytes before the NUL. */
  type Measure = seq<Byte> -> Size

  /**
   * One slot of the atlas: whether it holds a texture, where its C string
   * starts in the text buffer (`None` is the NULL that calloc leaves), and
   * its measured width and height.
   */
  datatype Glyph = Glyph(hasTexture: bool, view: Option<nat>, w: int, h: int)

  /** A slot as calloc leaves it. */
  const Zeroed: Glyph := Glyph(false, None, 0, 0)

  datatype Point = Point(x: int, y: int)
  datatype Rect = Rect(x: int, y: int, w: int, h: int)

  /** One SDL_RenderCopy of the texture of slot `slot` into `dest`. */
  datatype Draw = Draw(slot: nat, dest: Rect)

  const GlyphsCapacity: nat := 256
  const TextBufCapacity: nat := 2048

  /** sizeof(int) on the targets the program is built for. */
  const IntSize: nat := 4

  /**
   * How far the write cursor moves per glyph: `sizeof *g->c + sizeof '\0'`,
   * and a character constant such as '\0' has type int in C.
   */
  const Stride: nat := 1 + IntSize

  /** Number of bytes before the first NUL (strlen). */
  function StrLen(s: seq<Byte>): (n: nat)
    requires 0 in s
    ensures n < |s| && s[n] == 0
    ensures forall i | 0 <= i < n :: s[i] != 0
  {
    if s[0] == 0 then 0
    else
      assert s == [s[0]] + s[1..];
      1 + StrLen(s[1..])
  }

  /** The C string that starts at offset `off` of `buf`, without its NUL. */
  function CString(buf: seq<Byte>, off: nat): seq<Byte>
    requires off < |buf| && 0 in buf[off..]
  {
    buf[off..off + StrLen(buf[off..])]
  }

  /** The text the slot of byte value `b` stands for: {b, '\0'} read as a C string. */
  function CodeText(b: Byte): seq<Byte>
  {
    if b == 0 then [] else [b]
  }

  /** A two-byte C string {b, '\0'} at `off` reads back as `CodeText(b)`. */
  lemma {:induction false} CStringOfPair(buf: seq<Byte>, off: nat, b: Byte)
    requires off + 1 < |buf| && buf[off] == b && buf[off + 1] == 0
    ensures 0 in buf[off..] && CString(buf, off) == CodeText(b)
  {
    var tail := buf[off..];
    assert tail[1] == 0;
    if b != 0 {
      assert tail[1..][0] == 0;
      assert StrLen(tail[1..]) == 0;
      assert StrLen(tail) == 1;
    }
  }

  /** The abort test of font_build_atlas: it compares the glyph count, not the bytes used. */
  predicate GuardTrips(textBufLen: nat, capacity: nat)
  {
    textBufLen + 1 >= capacity
  }

  /**
   * The guard does not bound the bytes written. For any buffer larger than
   * the glyph count, the guard lets every one of the 256 glyphs through; yet
   * the C strings the build lays out at `Stride * i` all fit only when the
   * buffer is longer than the last one's terminator offset, 1276. Between the
   * two (a 300-byte buffer, say) the build writes past the end unchecked.
   */
  lemma GuardCountsGlyphsNotBytes(f: Font, capacity: nat)
    requires GlyphsCapacity < capacity
    ensures forall len: nat | len < GlyphsCapacity :: !GuardTrips(len, capacity)
    ensures (forall i: Byte :: f.BuiltGlyph(i).view.value + 1 < capacity)
        <==> Stride * (GlyphsCapacity - 1) + 1 < capacity
  {
    var last: Byte := GlyphsCapacity - 1;
    assert f.BuiltGlyph(last).view.value == Stride * last;
    forall i: Byte
      ensures f.BuiltGlyph(i).view.value <= Stride * last
    {
    }
  }

  /**
   * Whether byte `k` of the text buffer is left alone by the first `n`
   * passes of the build: it lies past their strings, or in the padding after
   * the two bytes each of them writes.
   */
  predicate Padding(k: nat, n: nat)
  {
    Stride * n <= k || k % Stride >= 2
  }

  /** A pass that writes {i, '\0'} at `Stride * i` keeps the padding of the passes after it. */
  lemma PaddingGrows(k: nat, i: nat)
    requires Padding(k, i + 1)
    ensures Padding(k, i) && k != Stride * i && k != Stride * i + 1
  {
    assert (Stride * i) % Stride == 0 && (Stride * i + 1) % Stride == 1;
  }

  /** The slots a teardown of the first `n` slots destroys, in order. */
  function TexturedSlots(gs: seq<Glyph>, n: nat): seq<nat>
    requires n <= |gs|
  {
    if n == 0 then []
    else TexturedSlots(gs, n - 1) + (if gs[n - 1].hasTexture then [n - 1] else [])
  }

  /** Teardown destroys exactly the textured slots among the first `n`, each once, in ascending order. */
  lemma {:induction false} TexturedSlotsExactlyOnce(gs: seq<Glyph>, n: nat)
    requires n <= |gs|
    ensures forall j: nat :: j in TexturedSlots(gs, n) <==> j < n && gs[j].hasTexture
    ensures forall a, b | 0 <= a < b < |TexturedSlots(gs, n)| ::
      TexturedSlots(gs, n)[a] < TexturedSlots(gs, n)[b]
    ensures forall a | 0 <= a < |TexturedSlots(gs, n)| :: TexturedSlots(gs, n)[a] < n
  {
    if n > 0 {
      TexturedSlotsExactlyOnce(gs, n - 1);
    }
  }

  /** When only slot 0 lacks a texture, a teardown of `n >= 1` slots destroys slots 1 .. n-1. */
  lemma {:induction false} TexturedSlotsSkipZero(gs: seq<Glyph>, n: nat)
    requires 1 <= n <= |gs|
    requires forall i | 0 <= i < |gs| :: gs[i].hasTexture == (i != 0)
    ensures TexturedSlots(gs, n) == seq(n - 1, k requires 0 <= k < n - 1 => k + 1)
  {
    if n > 1 {
      TexturedSlotsSkipZero(gs, n - 1);
    }
  }

  /**
   * `font` and `font_data` of src/glyphs.c. The function pointers `putchar`
   * and `write` are not fields: the methods are called directly.
   */
  class Font {
    /** The TTF_Font handle, as far as measuring text goes. */
    const measure: Measure
    /** TTF_FontHeight of the font. */
    var height: int

    var textBufLen: nat
    var textBufCapacity: nat
    var textBuf: array<Byte>
    /** The write cursor `text_next`, as an offset into `textBuf`. */
    var textNext: nat

    var glyphsCapacity: nat
    var glyphsLen: nat
    var glyphs: array<Glyph>

    /** The shape font_init gives the two buffers; nothing changes it afterwards. */
    ghost predicate Valid()
      reads this
    {
      && glyphs.Length == glyphsCapacity == GlyphsCapacity
      && textBuf.Length == textBufCapacity == TextBufCapacity
      && glyphsLen <= glyphsCapacity
    }

    /** The state between the two callocs and font_build_atlas: every slot and every buffer byte zero. */
    ghost predicate Blank()
      reads this, glyphs, textBuf
    {
      && Valid()
      && glyphsLen == 0 && textBufLen == 0 && textNext == 0
      && (forall i | 0 <= i < glyphs.Length :: glyphs[i] == Zeroed)
      && forall k | 0 <= k < textBuf.Length :: textBuf[k] == 0
    }

    /** Slot `i` as the build leaves it: a texture unless i is 0, a view at offset Stride * i, and the size measured for its text. */
    function BuiltGlyph(i: Byte): Glyph
    {
      var size := measure(CodeText(i));
      Glyph(i != 0, Some(Stride * i), size.w, size.h)
    }

    /** Slot `i` after the build: it is `BuiltGlyph(i)`, and its view holds {i, '\0'}. */
    ghost predicate SlotBuilt(i: Byte)
      reads this, glyphs, textBuf
      requires Valid()
    {
      && glyphs[i] == BuiltGlyph(i)
      && textBuf[Stride * i] == i && textBuf[Stride * i + 1] == 0
    }

    /** The state after a complete build. */
    ghost predicate Built()
      reads this, glyphs, textBuf
    {
      && Valid()
      && glyphsLen == GlyphsCapacity && textBufLen == GlyphsCapacity
      && textNext == Stride * GlyphsCapacity
      && (forall i | 0 <= i < GlyphsCapacity :: SlotBuilt(i))
      && forall k | 0 <= k < textBuf.Length && Padding(k, GlyphsCapacity) :: textBuf[k] == 0
    }

    /** font_init: zeroed slots and buffer, then the atlas build. */
    constructor Init(fontHeight: int, font: Measure)
      ensures Built()
      ensures measure == font && height == fontHeight
      ensures fresh(glyphs) && fresh(textBuf)
    {
      measure := font;
      height := fontHeight;
      glyphsLen := 0;
      glyphsCapacity := GlyphsCapacity;
      textBufLen := 0;
      textBufCapacity := TextBufCapacity;
      glyphs := new Glyph[GlyphsCapacity](_ => Zeroed);
      textBuf := new Byte[TextBufCapacity](_ => 0);
      textNext := 0;
      new;
      BuildAtlas();
    }

    /** Whether font_glyph_create_texture rasterises `g`: its view is not NULL and does not start with '\0'. */
    predicate Rasterizes(g: Glyph)
      reads this, textBuf
    {
      g.view.Some? && g.view.value < textBuf.Length && textBuf[g.view.value] != 0
    }

    /**
     * font_glyph_create_texture: nothing happens when the view is NULL or
     * starts with '\0'; otherwise the glyph gets a texture.
     */
    method CreateTexture(i: nat)
      requires Valid() && i < glyphs.Length
      requires glyphs[i].view.Some? ==> glyphs[i].view.value < textBuf.Length
      modifies glyphs
      ensures glyphs[i] == old(glyphs[i]).(hasTexture := old(glyphs[i].hasTexture) || Rasterizes(old(glyphs[i])))
      ensures forall k | 0 <= k < glyphs.Length && k != i :: glyphs[k] == old(glyphs[k])
    {
      var g := glyphs[i];
      if g.view.None? || textBuf[g.view.value] == 0 {
        return;
      }
      glyphs[i] := g.(hasTexture := true);
    }

    /** font_build_atlas: fills every slot in ascending order of byte value. */
    method BuildAtlas()
      requires Blank()
      modifies this`glyphsLen, this`textBufLen, this`textNext, glyphs, textBuf
      ensures Built()
    {
      var i := 0;
      while i < glyphsCapacity
        invariant Valid()
        invariant 0 <= i <= GlyphsCapacity
        invariant glyphsLen == i && textBufLen == i && textNext == Stride * i
        invariant forall k: Byte | k < i :: glyphs[k] == BuiltGlyph(k)
        invariant forall k: Byte | k < i :: textBuf[Stride * k] == k && textBuf[Stride * k + 1] == 0
        invariant forall k | i <= k < GlyphsCapacity :: glyphs[k] == Zeroed
        invariant forall k | 0 <= k < textBuf.Length && Padding(k, i) :: textBuf[k] == 0
      {
        if GuardTrips(textBufLen, textBufCapacity) {
          // abort(): the glyph count never comes near the 2048-byte capacity
          assert false;
        }
        FillSlot(i);
        forall k | 0 <= k < textBuf.Length && Padding(k, i + 1)
          ensures textBuf[k] == 0
        {
          PaddingGrows(k, i);
        }
        i := i + 1;
      }
    }

    /**
     * One pass of font_build_atlas's loop after the guard: write {i, '\0'} at
     * the cursor, point slot i at it, give the slot its texture and its
     * measured size, and count both.
     */
    method FillSlot(i: Byte)
      requires Valid() && glyphs[i] == Zeroed
      requires glyphsLen == i && textBufLen == i && textNext == Stride * i
      modifies this`glyphsLen, this`textBufLen, this`textNext, glyphs, textBuf
      ensures Valid()
      ensures glyphsLen == i + 1 && textBufLen == i + 1 && textNext == Stride * (i + 1)
      ensures SlotBuilt(i)
      ensures forall k | 0 <= k < glyphs.Length && k != i :: glyphs[k] == old(glyphs[k])
      ensures forall k | 0 <= k < textBuf.Length && k != Stride * i && k != Stride * i + 1 :: textBuf[k] == old(textBuf[k])
    {
      var view := textNext;
      glyphs[i] := glyphs[i].(view := Some(view));
      textBuf[view] := i;
      textBuf[view + 1] := 0;
      textNext := textNext + Stride;
      textBufLen := textBufLen + 1;

      CreateTexture(i);

      CStringOfPair(textBuf[..], view, i);
      var size := measure(CString(textBuf[..], view));
      glyphs[i] := glyphs[i].(w := size.w, h := size.h);
      glyphsLen := glyphsLen + 1;
    }

    /**
     * font_putchar: no draw and no glyph for '\0'; otherwise one draw of the
     * slot indexed by the byte at `dest`, as wide as the glyph and as high as
     * the font, and that slot is returned.
     */
    function PutChar(dest: Point, text: Byte): (r: Option<Draw>)
      reads this, glyphs
      requires Valid()
      ensures r.None? <==> text == 0
      ensures r.Some? ==> r.value.slot == text && r.value.dest.x == dest.x && r.value.dest.y == dest.y
      ensures r.Some? ==> r.value.dest.w == glyphs[text].w && r.value.dest.h == height
    {
      if text == 0 then None
      else Some(Draw(text, Rect(dest.x, dest.y, glyphs[text].w, height)))
    }

    /** Sum of the widths of the glyphs of `s`. */
    function Advance(s: seq<Byte>): int
      reads this, glyphs
      requires Valid()
    {
      if s == [] then 0 else Advance(s[..|s| - 1]) + glyphs[s[|s| - 1]].w
    }

    /**
     * `draws` is what writing `s` from `point` draws: one glyph per byte, in
     * order, the k-th at `point.x` plus the widths of the bytes before it, on
     * the row `point.y`, as high as the font.
     */
    ghost predicate Line(point: Point, s: seq<Byte>, draws: seq<Draw>)
      reads this, glyphs
      requires Valid()
    {
      && |draws| == |s|
      && forall k {:trigger draws[k]} | 0 <= k < |s| ::
           draws[k] == Draw(s[k], Rect(point.x + Advance(s[..k]), point.y, glyphs[s[k]].w, height))
    }

    /**
     * font_write: a do-while loop, so the first byte goes to PutChar before
     * any test for the terminator; the caller must not pass the empty string.
     */
    method Write(point: Point, text: seq<Byte>) returns (draws: seq<Draw>)
      requires Valid()
      requires 0 in text && text[0] != 0
      ensures Line(point, text[..StrLen(text)], draws)
    {
      ghost var n := StrLen(text);
      var t := 0;
      var p := point;
      draws := [];
      while true
        invariant 0 <= t < n
        invariant Line(point, text[..t], draws)
        invariant p == Point(point.x + Advance(text[..t]), point.y)
        decreases n - t
      {
        WriteStep(point, text, t, draws, p);
        var g := PutChar(p, text[t]);
        draws := draws + [g.value];
        p := p.(x := p.x + glyphs[g.value.slot].w);
        t := t + 1;
        if text[t] == 0 {
          break;
        }
      }
      assert t == n by {
        assert t <= n && text[t] == 0;
      }
    }

    /** One pass of font_write's loop: PutChar draws the byte at `t` at the cursor, extending the line, and the cursor moves past it. */
    lemma WriteStep(point: Point, text: seq<Byte>, t: nat, draws: seq<Draw>, p: Point)
      requires Valid() && t < |text| && text[t] != 0
      requires Line(point, text[..t], draws) && p == Point(point.x + Advance(text[..t]), point.y)
      ensures PutChar(p, text[t]).Some? && PutChar(p, text[t]).value.slot == text[t]
      ensures Line(point, text[..t + 1], draws + [PutChar(p, text[t]).value])
      ensures Point(p.x + glyphs[text[t]].w, p.y) == Point(point.x + Advance(text[..t + 1]), point.y)
    {
      LineSnoc(point, text[..t], draws, text[t]);
      assert text[..t] + [text[t]] == text[..t + 1];
    }

    /** Drawing one more byte at the cursor extends a line by that byte. */
    lemma LineSnoc(point: Point, s: seq<Byte>, draws: seq<Draw>, b: Byte)
      requires Valid() && Line(point, s, draws)
      ensures Advance(s + [b]) == Advance(s) + glyphs[b].w
      ensures Line(point, s + [b], draws + [Draw(b, Rect(point.x + Advance(s), point.y, glyphs[b].w, height))])
    {
      var s' := s + [b];
      assert s'[..|s|] == s;
      forall k | 0 <= k < |s|
        ensures s'[..k] == s[..k]
      {
      }
    }

    /** The teardown loop of main: destroys the texture of every textured slot among the first glyphsLen. */
    method Teardown() returns (destroyed: seq<nat>)
      requires Valid()
      ensures destroyed == TexturedSlots(glyphs[..], glyphsLen)
    {
      destroyed := [];
      var i := 0;
      while i < glyphsLen
        invariant 0 <= i <= glyphsLen
        invariant destroyed == TexturedSlots(glyphs[..], i)
      {
        if glyphs[i].hasTexture {
          destroyed := destroyed + [i];
        }
        i := i + 1;
      }
    }
  }

  /** After a build, slot i's view holds the C string {i, '\0'}, and its size is what the font measures for that string. */
  lemma BuiltSlotHoldsItsByte(f: Font, i: Byte)
    requires f.Built()
    ensures f.glyphs[i].view.Some? && f.glyphs[i].view.value + 1 < f.textBuf.Length
    ensures 0 in f.textBuf[f.glyphs[i].view.value..]
    ensures CString(f.textBuf[..], f.glyphs[i].view.value) == CodeText(i)
    ensures Size(f.glyphs[i].w, f.glyphs[i].h) == f.measure(CString(f.textBuf[..], f.glyphs[i].view.value))
    ensures f.glyphs[i].hasTexture <==> i != 0
  {
    assert f.SlotBuilt(i);
    CStringOfPair(f.textBuf[..], Stride * i, i);
  }

  /**
   * After a build the text buffer holds nothing but the 256 C strings: a
   * non-zero byte sits only at the start of slot `k / Stride`'s view and is
   * that slot's byte value; every other byte, terminators and padding
   * included, is still the zero calloc left.
   */
  lemma BuiltBufferHoldsOnlyTheStrings(f: Font)
    requires f.Built()
    ensures forall k | 0 <= k < f.textBuf.Length && f.textBuf[k] != 0 ::
      k % Stride == 0 && k < Stride * GlyphsCapacity && f.textBuf[k] == k / Stride
  {
    forall k | 0 <= k < f.textBuf.Length && f.textBuf[k] != 0
      ensures k % Stride == 0 && k < Stride * GlyphsCapacity && f.textBuf[k] == k / Stride
    {
      assert !Padding(k, GlyphsCapacity);
      var i: Byte := k / Stride;
      assert f.SlotBuilt(i);
      assert k == Stride * i + k % Stride;
    }
  }

  /**
   * Looking up a non-zero byte draws the textured glyph built from that byte,
   * as wide as the font measures that byte and as high as the font; '\0' draws
   * nothing.
   */
  lemma PutCharDrawsItsByte(f: Font, dest: Point, b: Byte)
    requires f.Built()
    ensures b == 0 ==> f.PutChar(dest, b) == None
    ensures b != 0 ==>
      && f.PutChar(dest, b).Some?
      && var d := f.PutChar(dest, b).value;
      && d.slot < f.glyphs.Length
      && f.glyphs[d.slot].hasTexture
      && f.glyphs[d.slot].view.Some?
      && f.glyphs[d.slot].view.value < f.textBuf.Length
      && 0 in f.textBuf[f.glyphs[d.slot].view.value..]
      && CString(f.textBuf[..], f.glyphs[d.slot].view.value) == [b]
      && d.dest == Rect(dest.x, dest.y, f.measure([b]).w, f.height)
  {
    BuiltSlotHoldsItsByte(f, b);
  }

  /** In a line, each glyph starts where the one before it ends, and all share the row of the start point. */
  lemma LineIsContiguous(f: Font, point: Point, s: seq<Byte>, draws: seq<Draw>)
    requires f.Valid() && f.Line(point, s, draws)
    ensures forall k | 0 <= k < |draws| :: draws[k].dest.y == point.y && draws[k].dest.h == f.height
    ensures |draws| > 0 ==> draws[0].dest.x == point.x
    ensures forall k | 0 <= k < |draws| - 1 :: draws[k + 1].dest.x == draws[k].dest.x + draws[k].dest.w
  {
    assert s[..0] == [];
    forall k | 0 <= k < |draws| - 1
      ensures draws[k + 1].dest.x == draws[k].dest.x + draws[k].dest.w
    {
      assert s[..k + 1][..k] == s[..k];
    }
  }

  /**
   * Writing "AB" from (100, 100) with glyph widths 10 and 12 draws 'A' at
   * (100, 100) and 'B' at (110, 100), leaving the cursor at 122.
   */
  lemma WriteABExample(f: Font, draws: seq<Draw>)
    requires f.Built()
    requires f.measure([65]).w == 10 && f.measure([66]).w == 12
    requires f.Line(Point(100, 100), [65, 66], draws)
    ensures draws[0].dest.x == 100 && draws[0].dest.y == 100
    ensures draws[1].dest.x == 110 && draws[1].dest.y == 100
    ensures 100 + f.Advance([65, 66]) == 122
  {
    assert f.SlotBuilt(65) && f.SlotBuilt(66);
    var s: seq<Byte> := [65, 66];
    assert s[..0] == [] && s[..1] == [65] && s[..2][..1] == [65];
  }

  /** After a full build, teardown destroys the 255 textures of slots 1 .. 255, each once. */
  lemma BuiltTeardown(f: Font)
    requires f.Built()
    ensures TexturedSlots(f.glyphs[..], f.glyphsLen) == seq(255, k requires 0 <= k < 255 => k + 1)
    ensures |TexturedSlots(f.glyphs[..], f.glyphsLen)| == 255
  {
    forall i | 0 <= i < f.glyphs.Length
      ensures f.glyphs[..][i].hasTexture == (i != 0)
    {
      assert f.SlotBuilt(i);
    }
    TexturedSlotsSkipZero(f.glyphs[..], f.glyphsLen);
  }

  /** C's `char` is signed on the program's targets: bytes from 0x80 up read as negative values. */
  function SignedChar(b: Byte): int
  {
    if b < 128 then b else b - 256
  }

  /** The index `(size_t)text` font_putchar computes from a signed `char`: the conversion wraps modulo 2^64. */
  function SignedSlot(b: Byte): nat
  {
    SignedChar(b) % 0x1_0000_0000_0000_0000
  }

  /** As written, ASCII bytes index their own slot, but every byte from 0x80 up indexes far past the 256 slots. */
  lemma SignedSlotOutOfRange(b: Byte)
    ensures b < 128 ==> SignedSlot(b) == b
    ensures 128 <= b ==> SignedSlot(b) >= GlyphsCapacity
    ensures SignedSlot(0xE9) == 0x1_0000_0000_0000_0000 - 23
  {
  }
}
