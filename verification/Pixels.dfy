// Which bytes of the framebuffer the boot code maps, pixel by pixel.
module Pixels {
  import opened Words
  import opened PageEntry
  import opened PageTree
  import opened Translation
  import opened Frames
  import opened BootMap
  import opened Boot
  import opened Access

  // Byte b of the pixel in column x and row y.
  function PixelByte(fb: Framebuffer, x: nat, y: nat, b: nat): nat {
    fb.address + (y * fb.width + x) * (fb.bpp / 8) + b
  }

  predicate IsPixelByte(fb: Framebuffer, x: nat, y: nat, b: nat) { x < fb.width && y < fb.height && b < fb.bpp / 8 }

  function Bytes(fb: Framebuffer): nat { fb.width * fb.height * (fb.bpp / 8) }

  // The page of the last byte of the last pixel.
  function LastPage(fb: Framebuffer): nat
    requires Bytes(fb) > 0
  {
    (fb.address + Bytes(fb) - 1) / 4096
  }

  // ----- pixels and offsets -----

  lemma Product(a: nat, b: nat, c: nat)
    requires a <= b
    ensures a * c <= b * c
  {
  }

  lemma OffsetInside(w: nat, h: nat, d: nat, x: nat, y: nat, b: nat)
    requires x < w && y < h && b < d
    ensures 0 <= (y * w + x) * d + b < w * h * d
  {
    Product(y + 1, h, w);
    assert (y + 1) * w == y * w + w;
    var i := y * w + x;
    assert i + 1 <= w * h;
    Product(i + 1, w * h, d);
    assert (i + 1) * d == i * d + d;
  }

  lemma PixelInside(fb: Framebuffer, x: nat, y: nat, b: nat)
    requires IsPixelByte(fb, x, y, b)
    ensures fb.address <= PixelByte(fb, x, y, b) < fb.address + Bytes(fb)
  {
    OffsetInside(fb.width, fb.height, fb.bpp / 8, x, y, b);
  }

  lemma LastPixel(fb: Framebuffer)
    requires Bytes(fb) > 0
    ensures fb.width > 0 && fb.height > 0 && fb.bpp / 8 > 0
    ensures PixelByte(fb, fb.width - 1, fb.height - 1, fb.bpp / 8 - 1) == fb.address + Bytes(fb) - 1
  {
    var w: int, h: int, d: int := fb.width, fb.height, fb.bpp / 8;
    assert w > 0 && h > 0 && d > 0;
    assert (h - 1) * w == h * w - w && h * w == w * h;
    assert (w * h - 1) * d == w * h * d - d;
  }

  // ----- offsets and pages -----

  // Every page of the framebuffer before that of its last byte is visited.
  lemma EarlierPages(fb: Framebuffer, a: nat)
    requires Bytes(fb) > 0 && fb.address <= a < fb.address + Bytes(fb) && a / 4096 < LastPage(fb)
    ensures OnScreen(fb, a / 4096)
  {
    hide Bytes;
    BytesAre(fb);
  }

  lemma BytesAre(fb: Framebuffer)
    ensures Bytes(fb) == fb.width * fb.height * (fb.bpp / 8)
  {
  }

  // And that one exactly when the last byte's place in its page is not more than 1024 before the first byte's.
  lemma LastPageVisited(fb: Framebuffer)
    requires Bytes(fb) > 0
    ensures OnScreen(fb, LastPage(fb)) <==> fb.address % 4096 <= (fb.address + Bytes(fb) - 1) % 4096 + 1024
  {
    hide Bytes;
    BytesAre(fb);
  }

  // ----- what is mapped -----

  ghost predicate ShowsItself(s: Space, a: nat) { Translate(s, a / 4096) == Some(a / 4096) }

  // Take a state in which exactly memory, framebuffer and tables are mapped, each page to itself, but for one page at
  // most. Then all bytes of all pixels outside that page are mapped to themselves, unless the last byte's place in its
  // page is more than 1024 before the first byte's: then the last page is only mapped when something else maps it.
  lemma PixelsAreMapped(s: Space, total: nat, fb: Framebuffer, hole: nat)
    requires forall x: nat :: x < PAGE_LIMIT && x != hole ==> MapsItself(s, total, fb, x)
    requires Bytes(fb) > 0 && fb.address + Bytes(fb) <= 0x1_0000_0000_0000
    ensures (forall x: nat, y: nat, b: nat :: IsPixelByte(fb, x, y, b) && PixelByte(fb, x, y, b) / 4096 != hole ==>
               ShowsItself(s, PixelByte(fb, x, y, b)))
       <==> || fb.address % 4096 <= (fb.address + Bytes(fb) - 1) % 4096 + 1024
            || LastPage(fb) == hole
            || LastPage(fb) * 4096 < total
            || IsTableFrame(s, LastPage(fb))
  {
    hide Bytes, OnScreen, Translate, IsTableFrame, PixelByte;
    LastPageVisited(fb);
    LastPixel(fb);
    var last := PixelByte(fb, fb.width - 1, fb.height - 1, fb.bpp / 8 - 1);
    assert LastPage(fb) == last / 4096 < PAGE_LIMIT;
    if LastPage(fb) != hole {
      assert MapsItself(s, total, fb, LastPage(fb));
      assert IsPixelByte(fb, fb.width - 1, fb.height - 1, fb.bpp / 8 - 1);
    }
    forall x: nat, y: nat, b: nat | IsPixelByte(fb, x, y, b) && PixelByte(fb, x, y, b) / 4096 != hole
      ensures ShowsItself(s, PixelByte(fb, x, y, b)) || PixelByte(fb, x, y, b) / 4096 == LastPage(fb)
    {
      PixelInside(fb, x, y, b);
      var a := PixelByte(fb, x, y, b);
      if a / 4096 != LastPage(fb) {
        EarlierPages(fb, a);
        assert MapsItself(s, total, fb, a / 4096);
      }
    }
  }

  // A framebuffer without bytes has no pixels.
  lemma NoPixels(fb: Framebuffer, x: nat, y: nat, b: nat)
    requires Bytes(fb) == 0
    ensures !IsPixelByte(fb, x, y, b)
  {
    if IsPixelByte(fb, x, y, b) {
      PixelInside(fb, x, y, b);
    }
  }

  // A framebuffer that starts in the first 1024 bytes of a page is mapped by setup_paging completely,
  lemma ScreenAfterSetup(mem: seq<seq<Entry>>, bits: seq<bool>, total: nat, fb: Framebuffer, x: nat, y: nat, b: nat)
    requires Shape(Bare(mem, bits)) && SetupTo(mem, bits, total, fb).Some? && IsPixelByte(fb, x, y, b)
    requires fb.address % 4096 <= 1024 && fb.address + Bytes(fb) <= 0x1_0000_0000_0000
    ensures var a := PixelByte(fb, x, y, b);
      Translate(SetupTo(mem, bits, total, fb).value, a / 4096) == Some(a / 4096)
  {
    hide MapsItself, SetupTo, BootState, TakenAreHeld, WellFormed, Translate, Shape, Bytes, PixelByte;
    PixelInside(fb, x, y, b);
    SetupBoots(mem, bits, total, fb);
    var s := SetupTo(mem, bits, total, fb).value;
    RootIsTable(s);
    SetupMaps(s, s.root, total, fb);
    ScreenPixel(s, total, fb, PAGE_LIMIT, x, y, b);
  }

  // and still is after the heap loop, outside the heap's first page.
  lemma ScreenAfterBoot(mem: seq<seq<Entry>>, bits: seq<bool>, total: uint64, fb: Framebuffer, x: nat, y: nat, b: nat)
    requires Shape(Bare(mem, bits)) && BootTo(mem, bits, total, fb).Some? && IsPixelByte(fb, x, y, b)
    requires fb.address % 4096 <= 1024 && fb.address + Bytes(fb) <= 0x1_0000_0000_0000
    requires PixelByte(fb, x, y, b) / 4096 != HEAP_PAGE
    ensures var a := PixelByte(fb, x, y, b);
      Translate(BootTo(mem, bits, total, fb).value.space, a / 4096) == Some(a / 4096)
  {
    hide MapsItself, BootTo, WellFormed, Translate, Shape, NoUserPages, TakenAreHeld, AllWritable, TablesSelfMapped,
         Bytes, PixelByte;
    PixelInside(fb, x, y, b);
    BootToBoots(mem, bits, total, fb);
    ScreenPixel(BootTo(mem, bits, total, fb).value.space, total, fb, HEAP_PAGE, x, y, b);
  }

  lemma ScreenPixel(s: Space, total: nat, fb: Framebuffer, hole: nat, x: nat, y: nat, b: nat)
    requires forall p: nat :: p < PAGE_LIMIT && p != hole ==> MapsItself(s, total, fb, p)
    requires IsPixelByte(fb, x, y, b) && PixelByte(fb, x, y, b) / 4096 < PAGE_LIMIT
    requires fb.address % 4096 <= 1024 && fb.address + Bytes(fb) <= 0x1_0000_0000_0000
    ensures PixelByte(fb, x, y, b) / 4096 != hole ==> ShowsItself(s, PixelByte(fb, x, y, b))
  {
    hide MapsItself, Bytes, PixelByte, Translate;
    PixelInside(fb, x, y, b);
    PixelsAreMapped(s, total, fb, hole);
  }
}
