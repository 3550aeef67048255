/**
 * wallpaper_view_t without its rendering: the shadertoy-style mouse state, the
 * frame counters and frameskip test of tick_animation, the animate and mouse
 * flags derived from the loaded shaders, the sizing mode, and the integer parts
 * of the date uniform. damage() is counted in a field.
 */
module View {
  import opened Wrappers
  import opened ShaderFeatures
  import opened TransferRecord
  import opened Loadables

  /** wf::geometry_t. */
  datatype Rect = Rect(x: int, y: int, width: int, height: int)

  /** The sizing enumeration. */
  datatype Sizing = Fill | Fit | Stretch

  /** operator<< on a sizing. */
  function SizingName(s: Sizing): (r: string)
    ensures r in {"fill", "fit", "stretch"}
  {
    match s
    case Fill => "fill"
    case Fit => "fit"
    case Stretch => "stretch"
  }

  /** set_sizing_mode's parse: "fit" and "stretch" are recognised, anything else falls back to fill. */
  function ParseSizing(m: string): (r: Sizing)
    ensures r == Fit <==> m == "fit"
    ensures r == Stretch <==> m == "stretch"
  {
    if m == "fit" then Fit else if m == "stretch" then Stretch else Fill
  }

  /** Printing a mode and parsing it back yields the same mode. */
  lemma SizingRoundTrip(s: Sizing)
    ensures ParseSizing(SizingName(s)) == s
  {
  }

  /** Every unknown name, the empty string included, means fill. */
  lemma UnknownSizingIsFill(m: string)
    requires m !in {"fill", "fit", "stretch"}
    ensures ParseSizing(m) == Fill
  {
  }

  /** BTN_LEFT from the Linux input event codes. */
  const BtnLeft: int := 0x110
  /** WLR_BUTTON_PRESSED; any other state is a release. */
  const ButtonPressed: int := 1

  /** The six mouse fields of a view. */
  datatype Pointer = Pointer(x: int, y: int, preX: int, preY: int, clickX: int, clickY: int)
  {
    /** The shadertoy convention: a click pair of (0, 0) means no button is held. */
    predicate Unclicked() { clickX == 0 && clickY == 0 }
  }

  /** The input a view receives. */
  datatype InputEvent =
    | Motion(mx: int, my: int)
    | Button(button: int, state: int)
    | TouchDown(tx: int, ty: int)
    | TouchUp
    | TouchMotion(vx: int, vy: int)

  /** The mouse fields after one event. */
  function Step(p: Pointer, e: InputEvent): (r: Pointer)
    ensures e.Motion? && p.Unclicked() ==> r == p.(preX := e.mx, preY := e.my)
    ensures e.Motion? && !p.Unclicked() ==> r == p.(x := e.mx, y := e.my)
    ensures e.Button? && e.button != BtnLeft ==> r == p
    ensures e.Button? && e.button == BtnLeft && e.state == ButtonPressed ==>
      r == p.(clickX := p.preX, clickY := p.preY)
    ensures e.Button? && e.button == BtnLeft && e.state != ButtonPressed ==>
      r.Unclicked() && r == p.(clickX := 0, clickY := 0)
    ensures e.TouchUp? ==> r.Unclicked() && r == p.(clickX := 0, clickY := 0)
    ensures e.TouchDown? ==> r == p.(clickX := e.tx, clickY := e.ty)
    ensures e.TouchMotion? ==> r == p.(x := e.vx, y := e.vy)
    ensures (r.x, r.y) != (p.x, p.y) ==> e.TouchMotion? || (e.Motion? && !p.Unclicked())
    ensures (r.preX, r.preY) == (p.preX, p.preY) || (e.Motion? && p.Unclicked())
  {
    match e
    case Motion(mx, my) =>
      if p.Unclicked() then p.(preX := mx, preY := my) else p.(x := mx, y := my)
    case Button(button, state) =>
      if button != BtnLeft then p
      else if state == ButtonPressed then p.(clickX := p.preX, clickY := p.preY)
      else p.(clickX := 0, clickY := 0)
    case TouchDown(tx, ty) => p.(clickX := tx, clickY := ty)
    case TouchUp => p.(clickX := 0, clickY := 0)
    case TouchMotion(vx, vy) => p.(x := vx, y := vy)
  }

  /** Whether handling the event calls damage(): motion only with both click coordinates nonzero. */
  predicate Damages(p: Pointer, e: InputEvent)
    ensures Damages(p, e) && !e.Motion? ==> Step(p, e).Unclicked()
  {
    match e
    case Motion(_, _) => p.clickX != 0 && p.clickY != 0
    case Button(button, state) => button == BtnLeft && state != ButtonPressed
    case TouchDown(_, _) => false
    case TouchUp => true
    case TouchMotion(_, _) => false
  }

  /** The mouse fields after a sequence of events. */
  function Run(p: Pointer, es: seq<InputEvent>): (r: Pointer)
    decreases |es|
  {
    if |es| == 0 then p else Run(Step(p, es[0]), es[1..])
  }

  /**
   * A drag: the button goes down where the pointer was, the click pair keeps
   * that spot while the position follows the pointer, and the release clears
   * the click pair without touching the position.
   */
  lemma {:induction false} DragAndRelease(p: Pointer, a: int, b: int, c: int, d: int)
    requires p.Unclicked() && (a, b) != (0, 0)
    ensures var q := Run(p, [Motion(a, b), Button(BtnLeft, ButtonPressed), Motion(c, d)]);
      q == Pointer(c, d, a, b, a, b)
    ensures Run(p, [Motion(a, b), Button(BtnLeft, ButtonPressed), Motion(c, d), Button(BtnLeft, 0)])
      == Pointer(c, d, a, b, 0, 0)
  {
    var q1 := Step(p, Motion(a, b));
    var q2 := Step(q1, Button(BtnLeft, ButtonPressed));
    var q3 := Step(q2, Motion(c, d));
    assert q1 == p.(preX := a, preY := b);
    assert q2 == Pointer(p.x, p.y, a, b, a, b);
    assert q3 == Pointer(c, d, a, b, a, b);
    assert Run(q3, []) == q3;
    assert Run(q2, [Motion(c, d)]) == Run(q3, []);
    assert Run(q1, [Button(BtnLeft, ButtonPressed), Motion(c, d)]) == Run(q2, [Motion(c, d)]);
    assert Run(q3, [Button(BtnLeft, 0)]) == Run(Pointer(c, d, a, b, 0, 0), []);
    assert Run(q2, [Motion(c, d), Button(BtnLeft, 0)]) == Run(q3, [Button(BtnLeft, 0)]);
    assert Run(q1, [Button(BtnLeft, ButtonPressed), Motion(c, d), Button(BtnLeft, 0)])
      == Run(q2, [Motion(c, d), Button(BtnLeft, 0)]);
  }

  /**
   * A press with the pointer at (0, 0) leaves the click pair at (0, 0): the
   * view keeps treating the button as up, so later motion moves only the pre pair.
   */
  lemma PressAtOriginUnseen(p: Pointer, c: int, d: int)
    requires p.Unclicked() && p.preX == 0 && p.preY == 0
    ensures Step(p, Button(BtnLeft, ButtonPressed)) == p
    ensures Step(Step(p, Button(BtnLeft, ButtonPressed)), Motion(c, d)) == p.(preX := c, preY := d)
    ensures !Damages(Step(p, Button(BtnLeft, ButtonPressed)), Motion(c, d))
  {
  }

  /**
   * A press on the left or top edge gives a click pair with one zero
   * coordinate: motion then updates the position but never damages.
   */
  lemma PressOnEdgeNeverDamages(p: Pointer, c: int, d: int)
    requires p.Unclicked() && p.preX == 0 && p.preY != 0
    ensures var q := Step(p, Button(BtnLeft, ButtonPressed));
      !q.Unclicked() && !Damages(q, Motion(c, d)) && Step(q, Motion(c, d)).x == c
  {
  }

  /** Whether a loadable currently holds a renderable (from && from->renderable). */
  predicate HasRenderable(l: Loadable?)
    reads l
  {
    l != null && l.renderable.Some?
  }

  /** The features of the shader a loadable holds, if it holds a shader. */
  function ShaderOf(l: Loadable?): (r: Option<Features>)
    reads l
    ensures r.Some? ==> HasRenderable(l) && l.renderable.value.ShaderR?
    ensures r.Some? <==> l != null && l.renderable.Some? && l.renderable.value.ShaderR?
  {
    if l != null && l.renderable.Some? && l.renderable.value.ShaderR? then
      Some(l.renderable.value.shader.features)
    else
      None
  }

  /** C++ integer division, truncating toward zero. */
  function CDiv(a: int, b: int): int
    requires b != 0
  {
    var q := Abs(a) / Abs(b);
    if (a < 0) == (b < 0) then q else -q
  }

  function Abs(a: int): nat { if a < 0 then -a else a }

  /** C++ remainder: the sign follows the dividend and the magnitude is below the divisor's. */
  function CRem(a: int, b: int): (r: int)
    requires b != 0
    ensures Abs(r) < Abs(b)
    ensures r != 0 ==> (r < 0 <==> a < 0)
    ensures a >= 0 ==> r == a % Abs(b)
    ensures a == CDiv(a, b) * b + r
  {
    var q := Abs(a) / Abs(b);
    var m := Abs(a) % Abs(b);
    assert Abs(a) == q * Abs(b) + m;
    assert CDiv(a, b) * b == (if a < 0 then -(q * Abs(b)) else q * Abs(b)) by {
      if b < 0 {
        assert CDiv(a, b) * b == (-CDiv(a, b)) * Abs(b);
      }
    }
    if a < 0 then -m else m
  }

  /** The frameskip test of tick_animation on the new frame count. */
  predicate Redraws(totalFrames: int, frameskip: int)
    requires frameskip != 0
  {
    CRem(totalFrames, frameskip) == 0
  }

  /** How many of the frames 1..n pass the frameskip test. */
  function RedrawCount(n: nat, frameskip: int): nat
    requires frameskip != 0
  {
    if n == 0 then 0 else RedrawCount(n - 1, frameskip) + (if Redraws(n, frameskip) then 1 else 0)
  }

  /** Over n ticks from a fresh view, one frame in every |frameskip| is drawn, whatever the sign. */
  lemma {:induction false} RedrawCountIsQuotient(n: nat, frameskip: int)
    requires frameskip != 0
    ensures RedrawCount(n, frameskip) == n / Abs(frameskip)
  {
    if n > 0 {
      RedrawCountIsQuotient(n - 1, frameskip);
      assert Redraws(n, frameskip) <==> n % Abs(frameskip) == 0;
      QuotientStep(n, Abs(frameskip));
    }
  }

  /** Going from n - 1 to n, the quotient grows by one exactly when n is a multiple of k. */
  lemma QuotientStep(n: nat, k: nat)
    requires n > 0 && k > 0
    ensures n / k == (n - 1) / k + (if n % k == 0 then 1 else 0)
  {
    var q := (n - 1) / k;
    var m := (n - 1) % k;
    if m + 1 == k {
      DivUnique(n, k, q + 1, 0);
    } else {
      DivUnique(n, k, q, m + 1);
    }
  }

  /** Euclidean division is determined by its defining equation. */
  lemma DivUnique(n: int, k: int, q: int, m: int)
    requires k > 0 && 0 <= m < k && n == q * k + m
    ensures n / k == q && n % k == m
  {
    var q' := n / k;
    var m' := n % k;
    assert (q - q') * k == m' - m;
    if q - q' >= 1 {
      MulGrows(q - q', k);
    } else if q' - q >= 1 {
      MulGrows(q' - q, k);
    }
  }

  lemma {:induction false} MulGrows(d: int, k: int)
    requires d >= 1 && k > 0
    ensures d * k >= k
  {
    if d > 1 {
      MulGrows(d - 1, k);
      assert d * k == (d - 1) * k + k;
    }
  }

  /** The seconds field of the date uniform: seconds + minutes * 60 + hours * 3600. */
  function SecondsOfDay(hour: int, min: int, sec: int): (r: int)
    requires 0 <= hour < 24 && 0 <= min < 60 && 0 <= sec <= 60
    ensures 0 <= r <= 86400
  {
    sec + min * 60 + hour * 3600
  }

  /** Outside a leap second the count determines the time of day. */
  lemma SecondsOfDayInverse(hour: int, min: int, sec: int)
    requires 0 <= hour < 24 && 0 <= min < 60 && 0 <= sec < 60
    ensures SecondsOfDay(hour, min, sec) / 3600 == hour
    ensures SecondsOfDay(hour, min, sec) % 3600 / 60 == min
    ensures SecondsOfDay(hour, min, sec) % 60 == sec
  {
    var r := SecondsOfDay(hour, min, sec);
    var t := sec + min * 60;
    assert 0 <= t < 3600;
    assert r == hour * 3600 + t;
    assert r / 3600 == hour && r % 3600 == t;
    assert t / 60 == min && t % 60 == sec;
    assert r == (hour * 60 + min) * 60 + sec;
  }

  /** The fields of struct tm that the date uniform uses. */
  datatype Tm = Tm(year: int, mon: int, mday: int, hour: int, min: int, sec: int)

  predicate ValidTm(tm: Tm)
  {
    0 <= tm.mon < 12 && 1 <= tm.mday <= 31 && 0 <= tm.hour < 24 && 0 <= tm.min < 60 && 0 <= tm.sec <= 60
  }

  /** The four components of iDate before their conversion to float. */
  datatype Date = Date(year: int, month: int, day: int, seconds: int)

  /** iDate: the calendar year, the month counted from 0, the day of the month and the seconds of the day. */
  function FrameDate(tm: Tm): (d: Date)
    requires ValidTm(tm)
    ensures d.year - 1900 == tm.year && d.month == tm.mon && d.day == tm.mday
    ensures 0 <= d.month < 12 && 0 <= d.seconds <= 86400
    ensures tm.sec < 60 ==> d.seconds / 3600 == tm.hour && d.seconds % 3600 / 60 == tm.min
  {
    var d := Date(tm.year + 1900, tm.mon, tm.mday, SecondsOfDay(tm.hour, tm.min, tm.sec));
    if tm.sec < 60 then
      SecondsOfDayInverse(tm.hour, tm.min, tm.sec);
      d
    else
      d
  }

  class WallpaperView {
    var from: Loadable?
    var to: Loadable?
    var mouseX: int
    var mouseY: int
    var mousePreX: int
    var mousePreY: int
    var mouseClickX: int
    var mouseClickY: int
    var fromFrames: int
    var toFrames: int
    var totalFrames: int
    var animate: bool
    var mouse: bool
    var frameskip: int
    var mode: Sizing
    var geometry: Rect
    /** How many times damage() was called. */
    var damages: nat

    /** A view as new_view creates it, before a geometry is set. */
    constructor ()
      ensures from == null && to == null && PointerState() == Pointer(0, 0, 0, 0, 0, 0)
      ensures fromFrames == 0 && toFrames == 0 && totalFrames == 0
      ensures !animate && !mouse && frameskip == 1 && mode == Fill && damages == 0
      ensures geometry == Rect(0, 0, 0, 0)
    {
      from, to := null, null;
      mouseX, mouseY, mousePreX, mousePreY, mouseClickX, mouseClickY := 0, 0, 0, 0, 0, 0;
      fromFrames, toFrames, totalFrames := 0, 0, 0;
      animate, mouse, frameskip, mode := false, false, 1, Fill;
      geometry := Rect(0, 0, 0, 0);
      damages := 0;
    }

    function PointerState(): Pointer
      reads this
    {
      Pointer(mouseX, mouseY, mousePreX, mousePreY, mouseClickX, mouseClickY)
    }

    /** Handle one input event; which handler runs is the event's kind. */
    method Handle(e: InputEvent)
      modifies this`mouseX, this`mouseY, this`mousePreX, this`mousePreY, this`mouseClickX, this`mouseClickY,
        this`damages
      ensures PointerState() == Step(old(PointerState()), e)
      ensures damages == old(damages) + (if Damages(old(PointerState()), e) then 1 else 0)
    {
      match e
      case Motion(x, y) => OnPointerMotion(x, y);
      case Button(button, state) => OnPointerButton(button, state);
      case TouchDown(x, y) => OnTouchDown(x, y);
      case TouchUp => OnTouchUp();
      case TouchMotion(x, y) => OnTouchMotion(x, y);
    }

    method OnPointerMotion(x: int, y: int)
      modifies this`mouseX, this`mouseY, this`mousePreX, this`mousePreY, this`damages
      ensures PointerState() == Step(old(PointerState()), Motion(x, y))
      ensures damages == old(damages) + (if Damages(old(PointerState()), Motion(x, y)) then 1 else 0)
    {
      if mouseClickX == 0 && mouseClickY == 0 {
        mousePreX := x;
        mousePreY := y;
      } else {
        mouseX := x;
        mouseY := y;
      }
      if mouseClickX != 0 && mouseClickY != 0 {
        damages := damages + 1;
      }
    }

    method OnPointerButton(button: int, state: int)
      modifies this`mouseClickX, this`mouseClickY, this`damages
      ensures PointerState() == Step(old(PointerState()), Button(button, state))
      ensures damages == old(damages) + (if Damages(old(PointerState()), Button(button, state)) then 1 else 0)
    {
      if button != BtnLeft {
        return;
      }
      if state == ButtonPressed {
        mouseClickX := mousePreX;
        mouseClickY := mousePreY;
      } else {
        mouseClickX := 0;
        mouseClickY := 0;
        damages := damages + 1;
      }
    }

    method OnTouchDown(x: int, y: int)
      modifies this`mouseClickX, this`mouseClickY
      ensures PointerState() == Step(old(PointerState()), TouchDown(x, y))
    {
      mouseClickX := x;
      mouseClickY := y;
    }

    method OnTouchUp()
      modifies this`mouseClickX, this`mouseClickY, this`damages
      ensures PointerState() == Step(old(PointerState()), TouchUp)
      ensures damages == old(damages) + 1
    {
      mouseClickX := 0;
      mouseClickY := 0;
      damages := damages + 1;
    }

    method OnTouchMotion(x: int, y: int)
      modifies this`mouseX, this`mouseY
      ensures PointerState() == Step(old(PointerState()), TouchMotion(x, y))
    {
      mouseX := x;
      mouseY := y;
    }

    /** accepts_input: only a view whose shader reads iMouse takes input, and only inside its geometry. */
    predicate AcceptsInput(sx: int, sy: int)
      reads this
      ensures AcceptsInput(sx, sy) ==> mouse && geometry.width > 0 && geometry.height > 0
    {
      mouse && 0 <= sx < geometry.width && 0 <= sy < geometry.height
    }

    /**
     * on_something_loaded: animate holds iff a loaded to or from shader reads
     * iTime, iTimeDelta, iDate or iFrame; mouse iff one reads iMouse.
     */
    method OnSomethingLoaded()
      modifies this`animate, this`mouse, this`damages
      ensures damages == old(damages) + 1
      ensures animate <==>
        (ShaderOf(to).Some? && Animates(ShaderOf(to).value))
        || (ShaderOf(from).Some? && Animates(ShaderOf(from).value))
      ensures mouse <==>
        (ShaderOf(to).Some? && ShaderOf(to).value.usesMouse)
        || (ShaderOf(from).Some? && ShaderOf(from).value.usesMouse)
    {
      damages := damages + 1;
      var t := ShaderOf(to);
      var f := ShaderOf(from);
      animate := (t.Some? && Animates(t.value)) || (f.Some? && Animates(f.value));
      mouse := (t.Some? && t.value.usesMouse) || (f.Some? && f.value.usesMouse);
    }

    /** set_sizing_mode. */
    method SetSizingMode(m: string)
      modifies this`mode, this`damages
      ensures mode == ParseSizing(m) && damages == old(damages) + 1
      ensures SizingName(mode) == m || m !in {"fill", "fit", "stretch"}
    {
      mode := ParseSizing(m);
      damages := damages + 1;
    }

    /**
     * tick_animation: count a frame for each loaded side, count the tick, and
     * damage when the tick passes the frameskip test. The clock reads and the
     * date query that precede the damage are not modelled.
     */
    method TickAnimation() returns (redrawn: bool)
      requires frameskip != 0
      modifies this`fromFrames, this`toFrames, this`totalFrames, this`damages
      ensures fromFrames == old(fromFrames) + (if HasRenderable(from) then 1 else 0)
      ensures toFrames == old(toFrames) + (if HasRenderable(to) then 1 else 0)
      ensures totalFrames == old(totalFrames) + 1
      ensures redrawn <==> Redraws(totalFrames, frameskip)
      ensures damages == old(damages) + (if redrawn then 1 else 0)
    {
      if from != null && from.renderable.Some? {
        fromFrames := fromFrames + 1;
      }
      if to != null && to.renderable.Some? {
        toFrames := toFrames + 1;
      }
      totalFrames := totalFrames + 1;
      redrawn := CRem(totalFrames, frameskip) == 0;
      if redrawn {
        damages := damages + 1;
      }
    }
  }

  /**
   * n ticks of a view whose frame count starts at 0 damage it exactly
   * n / |frameskip| times.
   */
  method TickMany(v: WallpaperView, n: nat) returns (redraws: nat)
    requires v.frameskip != 0 && v.totalFrames == 0
    modifies v`fromFrames, v`toFrames, v`totalFrames, v`damages
    ensures v.totalFrames == n && redraws == n / Abs(v.frameskip)
    ensures v.damages == old(v.damages) + redraws
  {
    redraws := 0;
    var i := 0;
    while i < n
      invariant 0 <= i <= n && v.totalFrames == i
      invariant redraws == RedrawCount(i, v.frameskip)
      invariant v.damages == old(v.damages) + redraws
    {
      var r := v.TickAnimation();
      i := i + 1;
      if r {
        redraws := redraws + 1;
      }
    }
    RedrawCountIsQuotient(n, v.frameskip);
  }
}
