/** The monochrome framebuffer (src/display.rs).

    The buffer is declared `[[u8; WIDTH]; HEIGHT]`: HEIGHT (32) outer
    entries of WIDTH (64) pixels.  Both `cls` and `draw` index it as
    `memory[x][y]` with the horizontal coordinate x first, so the outer
    (32-entry) index is the column.  A column of 32 or more is out of bounds
    and panics; the model keeps exactly that indexing.  As a consequence
    `cls` always panics, and `draw` panics as soon as a set sprite bit lands
    in a wrapped column of 32 or more.

    A sprite is drawn bit by bit in the order of the source's nested loops:
    row j = 0, 1, ..., bit i = 0..7 of each row.  The specification numbers
    these bits with one index t = 8 * j + i. */
module Display {
  import opened Bytes

  const WIDTH: int := 64
  const HEIGHT: int := 32

  /** The framebuffer as a value: `f[c][r]` is `memory[c][r]`, with
      c < HEIGHT (the outer dimension) and r < WIDTH. */
  type Frame = f: seq<seq<Byte>> | |f| == HEIGHT && forall c :: 0 <= c < HEIGHT ==> |f[c]| == WIDTH
    witness seq(HEIGHT, _ => seq(WIDTH, _ => 0))

  /** Every pixel is off. */
  function Blank(): (f: Frame)
    ensures forall c, r :: 0 <= c < HEIGHT && 0 <= r < WIDTH ==> f[c][r] == 0
  {
    seq(HEIGHT, _ => seq(WIDTH, _ => 0))
  }

  /** Every pixel is 0 or 1. */
  predicate Binary(f: Frame)
  {
    forall c, r :: 0 <= c < HEIGHT && 0 <= r < WIDTH ==> f[c][r] == 0 || f[c][r] == 1
  }

  /** Two frames that agree on every pixel are the same frame. */
  lemma FrameEq(f: Frame, g: Frame)
    requires forall c, r :: 0 <= c < HEIGHT && 0 <= r < WIDTH ==> f[c][r] == g[c][r]
    ensures f == g
  {
    forall c | 0 <= c < HEIGHT ensures f[c] == g[c] {
      assert |f[c]| == |g[c]| == WIDTH;
      assert forall r :: 0 <= r < WIDTH ==> f[c][r] == g[c][r];
    }
  }

  /** The value `draw` stores in a touched pixel: `(true ^ (old == 1)) as u8`. */
  function Flip(p: Byte): Byte
  {
    if p == 1 then 0 else 1
  }

  /** The frame with pixel (c, r) set to p. */
  function SetPixel(f: Frame, c: int, r: int, p: Byte): (g: Frame)
    requires 0 <= c < HEIGHT && 0 <= r < WIDTH
    ensures forall c', r' :: 0 <= c' < HEIGHT && 0 <= r' < WIDTH ==>
              g[c'][r'] == if c' == c && r' == r then p else f[c'][r']
  {
    var column: seq<Byte> := f[c][r := p];
    f[c := column]
  }

  function Pow2(k: nat): (p: nat)
    ensures p >= 1
  {
    if k == 0 then 1 else 2 * Pow2(k - 1)
  }

  /** `row >> (7 - i) & 0x01`: bit i of a sprite row, counted from the most
      significant bit. */
  function Bit(row: Byte, i: int): int
    requires 0 <= i < 8
  {
    row / Pow2(7 - i) % 2
  }

  /** Bit t of the whole sprite (row t / 8, bit t % 8) is set. */
  predicate IsSet(sprite: seq<Byte>, t: int)
    requires 0 <= t < 8 * |sprite|
  {
    Bit(sprite[t / 8], t % 8) == 1
  }

  /** Wrapped column and row of bit t for a sprite drawn at (x, y). */
  function Col(x: nat, t: nat): nat
  {
    (x + t % 8) % WIDTH
  }

  function Row(y: nat, t: nat): nat
  {
    (y + t / 8) % HEIGHT
  }

  datatype DrawResult = DrawFault | Drawn(frame: Frame, collision: bool)

  /** Adds an earlier collision to the result of the remaining bits. */
  function Merge(hit: bool, d: DrawResult): DrawResult
  {
    match d
    case DrawFault => DrawFault
    case Drawn(f, c) => Drawn(f, hit || c)
  }

  /** `draw` from bit t onwards: each set bit flips its target pixel; a pixel
      that was 1 when flipped is a collision; a target column of HEIGHT or
      more is the out-of-bounds panic. */
  function DrawFrom(f: Frame, x: nat, y: nat, sprite: seq<Byte>, t: nat): DrawResult
    requires t <= 8 * |sprite|
    decreases 8 * |sprite| - t
  {
    if t == 8 * |sprite| then Drawn(f, false)
    else if !IsSet(sprite, t) then DrawFrom(f, x, y, sprite, t + 1)
    else
      var c, r := Col(x, t), Row(y, t);
      if c >= HEIGHT then DrawFault
      else
        var was := f[c][r];
        Merge(was == 1, DrawFrom(SetPixel(f, c, r, Flip(was)), x, y, sprite, t + 1))
  }

  /** `draw(x, y, sprite)` on frame f. */
  function DrawOn(f: Frame, x: nat, y: nat, sprite: seq<Byte>): DrawResult
  {
    DrawFrom(f, x, y, sprite, 0)
  }

  /** Bit t (t >= from) of the sprite is set and lands on pixel (c, r). */
  predicate Hits(x: nat, y: nat, sprite: seq<Byte>, t: int, c: int, r: int)
  {
    0 <= t < 8 * |sprite| && IsSet(sprite, t) && Col(x, t) == c && Row(y, t) == r
  }

  /** Some set bit from index `from` on lands on pixel (c, r). */
  predicate Touched(x: nat, y: nat, sprite: seq<Byte>, from: nat, c: int, r: int)
  {
    exists t :: from <= t < 8 * |sprite| && Hits(x, y, sprite, t, c, r)
  }

  /** Some set bit from index `from` on lands in a column of HEIGHT or more. */
  predicate OffScreen(x: nat, y: nat, sprite: seq<Byte>, from: nat)
  {
    exists t :: from <= t < 8 * |sprite| && IsSet(sprite, t) && Col(x, t) >= HEIGHT
  }

  lemma BitIndex(j: int, i: int)
    requires 0 <= j && 0 <= i < 8
    ensures (8 * j + i) / 8 == j && (8 * j + i) % 8 == i
  {
  }

  lemma TouchedStep(x: nat, y: nat, sprite: seq<Byte>, t: nat, c: int, r: int)
    requires t < 8 * |sprite|
    ensures Touched(x, y, sprite, t, c, r) <==>
            (IsSet(sprite, t) && Col(x, t) == c && Row(y, t) == r) || Touched(x, y, sprite, t + 1, c, r)
  {
    if Touched(x, y, sprite, t, c, r) {
      var u :| t <= u && Hits(x, y, sprite, u, c, r);
      if u > t {
        assert t + 1 <= u;
      }
    }
    if IsSet(sprite, t) && Col(x, t) == c && Row(y, t) == r {
      assert Hits(x, y, sprite, t, c, r);
    }
  }

  lemma TouchedEnd(x: nat, y: nat, sprite: seq<Byte>, c: int, r: int)
    ensures !Touched(x, y, sprite, 8 * |sprite|, c, r)
  {
  }

  /** Shifting by less than the modulus changes the residue. */
  lemma ShiftedColumn(a: int, d: int)
    requires 0 < d < WIDTH
    ensures (a + d) % WIDTH != a % WIDTH
  {
  }

  lemma ShiftedRow(a: int, d: int)
    requires 0 < d < HEIGHT
    ensures (a + d) % HEIGHT != a % HEIGHT
  {
  }

  /** A later bit index is in a later row, or later in the same row. */
  lemma LaterBit(t: nat, u: nat)
    requires t < u
    ensures t / 8 < u / 8 || (t / 8 == u / 8 && t % 8 < u % 8)
  {
  }

  /** A sprite of at most HEIGHT rows reaches each pixel at most once. */
  lemma NoRevisit(x: nat, y: nat, sprite: seq<Byte>, t: nat)
    requires |sprite| <= HEIGHT && t < 8 * |sprite|
    ensures !Touched(x, y, sprite, t + 1, Col(x, t), Row(y, t))
  {
    if Touched(x, y, sprite, t + 1, Col(x, t), Row(y, t)) {
      var u :| t + 1 <= u < 8 * |sprite| && Hits(x, y, sprite, u, Col(x, t), Row(y, t));
      assert Col(x, u) == Col(x, t) && Row(y, u) == Row(y, t);
      LaterBit(t, u);
      if u / 8 == t / 8 {
        assert x + t % 8 + (u % 8 - t % 8) == x + u % 8;
        ShiftedColumn(x + t % 8, u % 8 - t % 8);
      } else {
        assert u / 8 < |sprite|;
        assert y + t / 8 + (u / 8 - t / 8) == y + u / 8;
        ShiftedRow(y + t / 8, u / 8 - t / 8);
      }
    }
  }

  /** `draw` panics exactly when some set bit lands in a column of HEIGHT
      or more; otherwise it completes. */
  lemma {:induction false} FaultIff(f: Frame, x: nat, y: nat, sprite: seq<Byte>, from: nat)
    requires from <= 8 * |sprite|
    ensures DrawFrom(f, x, y, sprite, from).DrawFault? <==> OffScreen(x, y, sprite, from)
    decreases 8 * |sprite| - from
  {
    if from < 8 * |sprite| {
      if IsSet(sprite, from) && Col(x, from) < HEIGHT {
        var c, r := Col(x, from), Row(y, from);
        FaultIff(SetPixel(f, c, r, Flip(f[c][r])), x, y, sprite, from + 1);
      } else if !IsSet(sprite, from) {
        FaultIff(f, x, y, sprite, from + 1);
      }
      if OffScreen(x, y, sprite, from) {
        var u :| from <= u < 8 * |sprite| && IsSet(sprite, u) && Col(x, u) >= HEIGHT;
        if u > from {
          assert OffScreen(x, y, sprite, from + 1);
        }
      }
      if OffScreen(x, y, sprite, from + 1) {
        var u :| from + 1 <= u < 8 * |sprite| && IsSet(sprite, u) && Col(x, u) >= HEIGHT;
        assert OffScreen(x, y, sprite, from);
      }
    }
  }

  /** For a sprite of at most HEIGHT rows, a completed `draw` flips exactly
      the touched pixels, leaves every other pixel unchanged, and reports a
      collision exactly when some touched pixel was 1 before. */
  lemma {:induction false} Pointwise(f: Frame, x: nat, y: nat, sprite: seq<Byte>, from: nat)
    requires |sprite| <= HEIGHT && from <= 8 * |sprite|
    ensures var d := DrawFrom(f, x, y, sprite, from);
      d.Drawn? ==>
        (forall c, r :: 0 <= c < HEIGHT && 0 <= r < WIDTH ==>
           d.frame[c][r] == if Touched(x, y, sprite, from, c, r) then Flip(f[c][r]) else f[c][r]) &&
        (d.collision <==>
           exists c, r :: 0 <= c < HEIGHT && 0 <= r < WIDTH && Touched(x, y, sprite, from, c, r) && f[c][r] == 1)
    decreases 8 * |sprite| - from
  {
    var d := DrawFrom(f, x, y, sprite, from);
    if from == 8 * |sprite| {
      forall c, r ensures !Touched(x, y, sprite, from, c, r) {
        TouchedEnd(x, y, sprite, c, r);
      }
    } else if !IsSet(sprite, from) {
      Pointwise(f, x, y, sprite, from + 1);
      forall c, r ensures Touched(x, y, sprite, from, c, r) == Touched(x, y, sprite, from + 1, c, r) {
        TouchedStep(x, y, sprite, from, c, r);
      }
    } else if Col(x, from) < HEIGHT {
      var c0, r0 := Col(x, from), Row(y, from);
      var f1 := SetPixel(f, c0, r0, Flip(f[c0][r0]));
      Pointwise(f1, x, y, sprite, from + 1);
      NoRevisit(x, y, sprite, from);
      forall c, r ensures Touched(x, y, sprite, from, c, r) == ((c == c0 && r == r0) || Touched(x, y, sprite, from + 1, c, r)) {
        TouchedStep(x, y, sprite, from, c, r);
      }
      var rest := DrawFrom(f1, x, y, sprite, from + 1);
      assert d == Merge(f[c0][r0] == 1, rest);
      if d.Drawn? {
        forall c, r | 0 <= c < HEIGHT && 0 <= r < WIDTH
          ensures d.frame[c][r] == if Touched(x, y, sprite, from, c, r) then Flip(f[c][r]) else f[c][r]
        {
          if c == c0 && r == r0 {
            assert !Touched(x, y, sprite, from + 1, c, r);
          }
        }
        if d.collision {
          if !(f[c0][r0] == 1) {
            assert rest.collision;
            var c, r :| 0 <= c < HEIGHT && 0 <= r < WIDTH && Touched(x, y, sprite, from + 1, c, r) && f1[c][r] == 1;
            assert !(c == c0 && r == r0);
            assert Touched(x, y, sprite, from, c, r) && f[c][r] == 1;
          } else {
            assert Touched(x, y, sprite, from, c0, r0);
          }
        }
        if exists c, r :: 0 <= c < HEIGHT && 0 <= r < WIDTH && Touched(x, y, sprite, from, c, r) && f[c][r] == 1 {
          var c, r :| 0 <= c < HEIGHT && 0 <= r < WIDTH && Touched(x, y, sprite, from, c, r) && f[c][r] == 1;
          if !(c == c0 && r == r0) {
            assert Touched(x, y, sprite, from + 1, c, r) && f1[c][r] == 1;
            assert rest.collision;
          }
        }
      }
    }
  }

  /** Drawing never makes a pixel other than 0 or 1 out of a 0/1 frame. */
  lemma {:induction false} KeepsBinary(f: Frame, x: nat, y: nat, sprite: seq<Byte>, from: nat)
    requires Binary(f) && from <= 8 * |sprite|
    ensures DrawFrom(f, x, y, sprite, from).Drawn? ==> Binary(DrawFrom(f, x, y, sprite, from).frame)
    decreases 8 * |sprite| - from
  {
    if from < 8 * |sprite| {
      if !IsSet(sprite, from) {
        KeepsBinary(f, x, y, sprite, from + 1);
      } else if Col(x, from) < HEIGHT {
        var c0, r0 := Col(x, from), Row(y, from);
        KeepsBinary(SetPixel(f, c0, r0, Flip(f[c0][r0])), x, y, sprite, from + 1);
      }
    }
  }

  /** A sprite without a set bit (in particular an empty one) reports no
      collision and changes nothing. */
  lemma {:induction false} NoSetBits(f: Frame, x: nat, y: nat, sprite: seq<Byte>, from: nat)
    requires from <= 8 * |sprite|
    requires forall t :: from <= t < 8 * |sprite| ==> !IsSet(sprite, t)
    ensures DrawFrom(f, x, y, sprite, from) == Drawn(f, false)
    decreases 8 * |sprite| - from
  {
    if from < 8 * |sprite| {
      NoSetBits(f, x, y, sprite, from + 1);
    }
  }

  /** Drawing the same sprite (at most HEIGHT rows) twice at the same origin
      restores a 0/1 frame, and the second call collides exactly when some
      touched pixel was 0 before the first. */
  lemma DrawTwice(f: Frame, x: nat, y: nat, sprite: seq<Byte>)
    requires Binary(f) && |sprite| <= HEIGHT
    requires DrawOn(f, x, y, sprite).Drawn?
    ensures var d1 := DrawOn(f, x, y, sprite);
      var d2 := DrawOn(d1.frame, x, y, sprite);
      d2.Drawn? && d2.frame == f &&
      (d2.collision <==>
         exists c, r :: 0 <= c < HEIGHT && 0 <= r < WIDTH && Touched(x, y, sprite, 0, c, r) && f[c][r] == 0)
  {
    var d1 := DrawOn(f, x, y, sprite);
    FaultIff(f, x, y, sprite, 0);
    FaultIff(d1.frame, x, y, sprite, 0);
    var d2 := DrawOn(d1.frame, x, y, sprite);
    Pointwise(f, x, y, sprite, 0);
    Pointwise(d1.frame, x, y, sprite, 0);
    FrameEq(d2.frame, f);
    if d2.collision {
      var c, r :| 0 <= c < HEIGHT && 0 <= r < WIDTH && Touched(x, y, sprite, 0, c, r) && d1.frame[c][r] == 1;
      assert f[c][r] == 0;
    }
    if exists c, r :: 0 <= c < HEIGHT && 0 <= r < WIDTH && Touched(x, y, sprite, 0, c, r) && f[c][r] == 0 {
      var c, r :| 0 <= c < HEIGHT && 0 <= r < WIDTH && Touched(x, y, sprite, 0, c, r) && f[c][r] == 0;
      assert d1.frame[c][r] == 1;
    }
  }

  /** On a blank screen the first draw of an on-screen sprite reports no
      collision and the second reports one as soon as any bit is set. */
  lemma DrawTwiceOnBlank(x: nat, y: nat, sprite: seq<Byte>, t: nat)
    requires |sprite| <= HEIGHT && t < 8 * |sprite| && IsSet(sprite, t)
    requires DrawOn(Blank(), x, y, sprite).Drawn?
    ensures !DrawOn(Blank(), x, y, sprite).collision
    ensures DrawOn(DrawOn(Blank(), x, y, sprite).frame, x, y, sprite) == Drawn(Blank(), true)
  {
    var f := Blank();
    Pointwise(f, x, y, sprite, 0);
    FaultIff(f, x, y, sprite, 0);
    DrawTwice(f, x, y, sprite);
    assert Col(x, t) < HEIGHT;
    assert Hits(x, y, sprite, t, Col(x, t), Row(y, t));
    assert Touched(x, y, sprite, 0, Col(x, t), Row(y, t));
  }

  /** One step of the nested loops, in the terms the loops use: row j, bit i. */
  lemma DrawStep(f: Frame, x: nat, y: nat, sprite: seq<Byte>, j: nat, i: nat)
    requires j < |sprite| && i < 8
    ensures DrawFrom(f, x, y, sprite, 8 * j + i) ==
      if Bit(sprite[j], i) != 1 then DrawFrom(f, x, y, sprite, 8 * j + i + 1)
      else if (x + i) % WIDTH >= HEIGHT then DrawFault
      else
        var c, r := (x + i) % WIDTH, (y + j) % HEIGHT;
        Merge(f[c][r] == 1, DrawFrom(SetPixel(f, c, r, Flip(f[c][r])), x, y, sprite, 8 * j + i + 1))
  {
    BitIndex(j, i);
    assert IsSet(sprite, 8 * j + i) == (Bit(sprite[j], i) == 1);
    assert Col(x, 8 * j + i) == (x + i) % WIDTH && Row(y, 8 * j + i) == (y + j) % HEIGHT;
  }

  lemma MergeTwice(a: bool, b: bool, d: DrawResult)
    ensures Merge(a, Merge(b, d)) == Merge(a || b, d)
  {
  }

  class Display {
    const memory: array2<Byte>

    ghost predicate Valid()
    {
      memory.Length0 == HEIGHT && memory.Length1 == WIDTH
    }

    /** The framebuffer's current contents as a value. */
    ghost function Pixels(): (f: Frame)
      requires Valid()
      reads memory
      ensures forall c, r :: 0 <= c < HEIGHT && 0 <= r < WIDTH ==> f[c][r] == memory[c, r]
    {
      var m := memory;
      seq(HEIGHT, c requires 0 <= c < HEIGHT reads m => seq(WIDTH, r requires 0 <= r < WIDTH reads m => m[c, r]))
    }

    /** `Display::new`: every pixel off. */
    constructor ()
      ensures Valid() && fresh(memory)
      ensures Pixels() == Blank()
    {
      memory := new Byte[HEIGHT, WIDTH]((c, r) => 0);
      new;
      FrameEq(Pixels(), Blank());
    }

    /** `cls`: the loops run x over 0..WIDTH and y over 0..HEIGHT writing
        `memory[x][y] = 0`; columns 0..HEIGHT-1 are zeroed on rows
        0..HEIGHT-1, and the first write with x == HEIGHT panics, so `cls`
        never returns normally. */
    method Cls() returns (r: Result<()>)
      requires Valid()
      modifies memory
      ensures Valid()
      ensures r == Err(DisplayBounds)
      ensures forall c, row :: 0 <= c < HEIGHT && 0 <= row < WIDTH ==>
                memory[c, row] == if row < HEIGHT then 0 else old(memory[c, row])
    {
      var x := 0;
      while x < HEIGHT
        invariant 0 <= x <= HEIGHT
        invariant forall c, row :: 0 <= c < HEIGHT && 0 <= row < WIDTH ==>
                    memory[c, row] == if c < x && row < HEIGHT then 0 else old(memory[c, row])
      {
        var y := 0;
        while y < HEIGHT
          invariant 0 <= y <= HEIGHT
          invariant forall c, row :: 0 <= c < HEIGHT && 0 <= row < WIDTH ==>
                      memory[c, row] == if (c < x && row < HEIGHT) || (c == x && row < y) then 0 else old(memory[c, row])
        {
          memory[x, y] := 0;
          y := y + 1;
        }
        x := x + 1;
      }
      // x == HEIGHT < WIDTH: `memory[x]` is out of bounds.
      r := Err(DisplayBounds);
    }

    /** `draw(x, y, sprite)`: XORs the sprite onto the framebuffer bit by bit
        and returns whether a lit pixel was switched off. */
    method Draw(x: nat, y: nat, sprite: seq<Byte>) returns (r: Result<bool>)
      requires Valid()
      modifies memory
      ensures Valid()
      ensures r.Err? ==> r.fault == DisplayBounds
      ensures DrawOn(old(Pixels()), x, y, sprite) == if r.Ok? then Drawn(Pixels(), r.value) else DrawFault
    {
      ghost var start := Pixels();
      var collision := false;
      var j := 0;
      while j < |sprite|
        invariant 0 <= j <= |sprite|
        invariant DrawOn(start, x, y, sprite) == Merge(collision, DrawFrom(Pixels(), x, y, sprite, 8 * j))
      {
        var row := sprite[j];
        var i := 0;
        while i < 8
          invariant 0 <= i <= 8
          invariant DrawOn(start, x, y, sprite) == Merge(collision, DrawFrom(Pixels(), x, y, sprite, 8 * j + i))
        {
          DrawStep(Pixels(), x, y, sprite, j, i);
          var newValue := row / Pow2(7 - i) % 2;
          if newValue == 1 {
            var xi := (x + i) % WIDTH;
            var yj := (y + j) % HEIGHT;
            if xi >= HEIGHT {
              return Err(DisplayBounds);
            }
            ghost var before := Pixels();
            MergeTwice(collision, before[xi][yj] == 1, DrawFrom(SetPixel(before, xi, yj, Flip(before[xi][yj])), x, y, sprite, 8 * j + i + 1));
            var oldValue := memory[xi, yj] == 1;
            if oldValue {
              collision := true;
            }
            memory[xi, yj] := if oldValue then 0 else 1;
            FrameEq(Pixels(), SetPixel(before, xi, yj, Flip(before[xi][yj])));
          }
          i := i + 1;
        }
        j := j + 1;
      }
      return Ok(collision);
    }
  }
}
