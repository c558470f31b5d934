/**
 Drawing system calls, direct and queued.

 A queued call keeps its arguments as text until endpaint replays it.  Queueing
 a call also overwrites the caller's own texts with the capped values.  The
 queue is worth having only if the replay draws what the direct calls would
 have drawn; that is proved here, together with exactly which calls it fails for.
 */
module Graphics {
  import opened Machine
  import opened Blocks
  import opened Raster
  import opened DecimalText

  const HDCS: nat := 5
  const QUEUESIZE: nat := 50

  datatype Action = PixelSetterFuncQueue | LineDrawFunc | MovePosFunc | DeclarePenFunc | GetPenFunc | DrawRect

  datatype Command = Command(action: Action, args: seq<string>)

  /** A drawing context; queue holds commandQueue up to queueEnd. */
  datatype Hdc = Hdc(init: bool, x: int, y: int, penIndex: int, queue: seq<Command>)

  datatype Colour = Colour(r: Byte, g: Byte, b: Byte)

  /** What drawing through one context can see and change. */
  datatype Picture = Picture(pix: seq<Byte>, palette: seq<Colour>, x: int, y: int, pen: int)

  /** A drawing call with numbers as its arguments, or with the caller's buffers that hold them as texts. */
  datatype Drawing<T> =
    | Pixel(px: T, py: T)
    | LineTo(lx: T, ly: T)
    | MoveTo(mx: T, my: T)
    | DeclarePen(index: T, r: T, g: T, b: T)
    | SelectPen(pen: T)
    | FillRect(top: T, bottom: T, right: T, left: T)

  predicate IsScreen(v: Picture) {
    |v.pix| == VGASIZE && |v.palette| == 256
  }

  function Draw(v: Picture, pts: seq<Point>): (w: Picture)
    requires IsScreen(v)
    ensures IsScreen(w)
  {
    v.(pix := Paint(v.pix, pts, v.pen % 0x100))
  }

  function SetColour(v: Picture, i: int, r: int, g: int, b: int): (w: Picture)
    requires IsScreen(v)
    ensures IsScreen(w)
  {
    v.(palette := v.palette[i % 0x100 := Colour(r % 0x100, g % 0x100, b % 0x100)])
  }

  // ----- direct calls

  /** What a direct system call does. */
  function Perform(v: Picture, call: Drawing<int>): (w: Picture)
    requires IsScreen(v)
    ensures IsScreen(w)
  {
    match call
    case Pixel(x, y) => Draw(v, [Point(Capped(x, 319), Capped(y, 199))])
    case LineTo(x, y) =>
      var nx, ny := Capped(x, 319), Capped(y, 199);
      Draw(v, LinePoints(v.x, v.y, nx, ny)).(x := nx, y := ny)
    case MoveTo(x, y) => v.(x := Capped(x, 319), y := Capped(y, 199))
    case DeclarePen(i, r, g, b) =>
      if 16 <= i <= 255 then SetColour(v, i, Capped(r, 63), Capped(g, 63), Capped(b, 63)) else v
    case SelectPen(i) => if i > 255 then v else v.(pen := i)
    case FillRect(top, bottom, right, left) =>
      Draw(v, RectPoints(Capped(top, 199), Capped(left, 319), Capped(bottom, 199), Capped(right, 319)))
  }

  function PerformAll(v: Picture, calls: seq<Drawing<int>>): (w: Picture)
    requires IsScreen(v)
    ensures IsScreen(w)
    decreases |calls|
  {
    if calls == [] then v else Perform(PerformAll(v, calls[..|calls| - 1]), calls[|calls| - 1])
  }

  // ----- queued calls

  predicate WellFormed(c: Command) {
    match c.action
    case DeclarePenFunc => |c.args| >= 5
    case DrawRect => |c.args| >= 5
    case GetPenFunc => |c.args| >= 2
    case _ => |c.args| >= 3
  }

  /** What running a queued command does. */
  function Execute(v: Picture, c: Command): (w: Picture)
    requires IsScreen(v) && WellFormed(c)
    ensures IsScreen(w)
  {
    match c.action
    case PixelSetterFuncQueue => Draw(v, [Point(Value(c.args[1]), Value(c.args[2]))])
    case LineDrawFunc =>
      var x1, y1 := Value(c.args[1]), Value(c.args[2]);
      Draw(v, LinePoints(v.x, v.y, x1, y1)).(x := x1, y := y1)
    case MovePosFunc => v.(x := Value(c.args[1]), y := Value(c.args[2]))
    case DeclarePenFunc =>
      SetColour(v, Value(c.args[1]), Value(c.args[2]), Value(c.args[3]), Value(c.args[4]))
    case GetPenFunc => v.(pen := Value(c.args[1]))
    case DrawRect => Draw(v, RectPoints(Value(c.args[1]), Value(c.args[2]), Value(c.args[3]), Value(c.args[4])))
  }

  function ExecuteAll(v: Picture, cs: seq<Command>): (w: Picture)
    requires IsScreen(v) && forall i :: 0 <= i < |cs| ==> WellFormed(cs[i])
    ensures IsScreen(w)
    decreases |cs|
  {
    if cs == [] then v else Execute(ExecuteAll(v, cs[..|cs| - 1]), cs[|cs| - 1])
  }

  function CappedText(s: string, capacity: nat): string {
    Text(Capped(Value(s), capacity))
  }

  /** A buffer of the caller's, and what the number in it is capped to. */
  datatype Arg = Arg(buffer: nat, capacity: nat)

  /** The arguments of a request in the order in which they are capped. */
  function Args(req: Drawing<nat>): seq<Arg> {
    match req
    case Pixel(x, y) => [Arg(x, 319), Arg(y, 199)]
    case LineTo(x, y) => [Arg(x, 319), Arg(y, 199)]
    case MoveTo(x, y) => [Arg(x, 319), Arg(y, 199)]
    case DeclarePen(i, r, g, b) => [Arg(i, 50), Arg(r, 63), Arg(g, 63), Arg(b, 63)]
    case SelectPen(i) => [Arg(i, 50)]
    case FillRect(top, bottom, right, left) => [Arg(top, 199), Arg(bottom, 199), Arg(right, 319), Arg(left, 319)]
  }

  predicate InTexts(args: seq<Arg>, n: nat) {
    forall k :: 0 <= k < |args| ==> args[k].buffer < n && args[k].capacity < 1000
  }

  predicate Refers(req: Drawing<nat>, n: nat) {
    InTexts(Args(req), n)
  }

  /** The caller's buffers when the arguments have been capped one after the other, each in its own buffer. */
  function Overwritten(texts: seq<string>, args: seq<Arg>): (r: seq<string>)
    requires InTexts(args, |texts|)
    ensures |r| == |texts|
    decreases |args|
  {
    if args == [] then texts
    else
      var a, t := args[|args| - 1], Overwritten(texts, args[..|args| - 1]);
      t[a.buffer := CappedText(t[a.buffer], a.capacity)]
  }

  /** The command that a request on context h stores, from the buffers as they are then. */
  function Encode(h: nat, req: Drawing<nat>, texts: seq<string>): (c: Command)
    requires Refers(req, |texts|)
    ensures WellFormed(c) && c.args[0] == Text(h)
  {
    RefersTo(req, |texts|);
    match req
    case Pixel(x, y) => Command(PixelSetterFuncQueue, [Text(h), texts[x], texts[y]])
    case LineTo(x, y) => Command(LineDrawFunc, [Text(h), texts[x], texts[y]])
    case MoveTo(x, y) => Command(MovePosFunc, [Text(h), texts[x], texts[y]])
    case DeclarePen(i, r, g, b) => Command(DeclarePenFunc, [Text(h), texts[i], texts[r], texts[g], texts[b]])
    case SelectPen(i) => Command(GetPenFunc, [Text(h), texts[i]])
    case FillRect(top, bottom, right, left) => Command(DrawRect, [Text(h), texts[top], texts[left], texts[bottom], texts[right]])
  }

  /** The call with the numbers that the buffers spell out. */
  function Meaning(req: Drawing<nat>, texts: seq<string>): Drawing<int>
    requires Refers(req, |texts|)
  {
    RefersTo(req, |texts|);
    match req
    case Pixel(x, y) => Pixel(Value(texts[x]), Value(texts[y]))
    case LineTo(x, y) => LineTo(Value(texts[x]), Value(texts[y]))
    case MoveTo(x, y) => MoveTo(Value(texts[x]), Value(texts[y]))
    case DeclarePen(i, r, g, b) => DeclarePen(Value(texts[i]), Value(texts[r]), Value(texts[g]), Value(texts[b]))
    case SelectPen(i) => SelectPen(Value(texts[i]))
    case FillRect(top, bottom, right, left) =>
      FillRect(Value(texts[top]), Value(texts[bottom]), Value(texts[right]), Value(texts[left]))
  }

  lemma RefersTo(req: Drawing<nat>, n: nat)
    requires Refers(req, n)
    ensures req.Pixel? ==> req.px < n && req.py < n
    ensures req.LineTo? ==> req.lx < n && req.ly < n
    ensures req.MoveTo? ==> req.mx < n && req.my < n
    ensures req.DeclarePen? ==> req.index < n && req.r < n && req.g < n && req.b < n
    ensures req.SelectPen? ==> req.pen < n
    ensures req.FillRect? ==> req.top < n && req.bottom < n && req.right < n && req.left < n
  {
    var args := Args(req);
    assert args[0].buffer < n;
    assert |args| > 1 ==> args[1].buffer < n;
    assert |args| > 2 ==> args[2].buffer < n && args[3].buffer < n;
  }

  // ----- which numbers a replay sees

  /** The number in buffer b when the arguments have been capped. */
  function CapAll(v: int, args: seq<Arg>, b: nat): int
    decreases |args|
  {
    if args == [] then v
    else
      var a, w := args[|args| - 1], CapAll(v, args[..|args| - 1], b);
      if a.buffer == b then Capped(w, a.capacity) else w
  }

  lemma {:induction false} OverwrittenValue(texts: seq<string>, args: seq<Arg>, b: nat)
    requires InTexts(args, |texts|) && b < |texts|
    ensures Value(Overwritten(texts, args)[b]) == CapAll(Value(texts[b]), args, b)
    decreases |args|
  {
    if args != [] {
      var n := |args| - 1;
      OverwrittenValue(texts, args[..n], b);
      CappedTextReadsBack(Overwritten(texts, args[..n])[b], args[n].capacity);
    }
  }

  /** A buffer that is capped several times ends with the least of the capped values. */
  lemma {:induction false} CapAllLeast(v: int, args: seq<Arg>, b: nat)
    ensures (exists k :: 0 <= k < |args| && args[k].buffer == b && CapAll(v, args, b) == Capped(v, args[k].capacity))
         || (CapAll(v, args, b) == v && forall k :: 0 <= k < |args| ==> args[k].buffer != b)
    ensures forall k :: 0 <= k < |args| && args[k].buffer == b ==> 0 <= CapAll(v, args, b) <= Capped(v, args[k].capacity)
    decreases |args|
  {
    if args != [] {
      var n := |args| - 1;
      var rest, w := args[..n], CapAll(v, args[..n], b);
      CapAllLeast(v, rest, b);
      if exists k :: 0 <= k < |rest| && rest[k].buffer == b && w == Capped(v, rest[k].capacity) {
        var k :| 0 <= k < |rest| && rest[k].buffer == b && w == Capped(v, rest[k].capacity);
        assert args[k] == rest[k];
        if args[n].buffer == b && args[n].capacity < w {
          assert CapAll(v, args, b) == Capped(v, args[n].capacity);
        } else {
          assert CapAll(v, args, b) == w;
        }
      } else if args[n].buffer == b {
        assert CapAll(v, args, b) == Capped(v, args[n].capacity);
      }
      forall k | 0 <= k < |args| && args[k].buffer == b
        ensures 0 <= CapAll(v, args, b) <= Capped(v, args[k].capacity)
      {
        assert k < n ==> rest[k] == args[k];
      }
    }
  }

  /** No capping of a's buffer, by this request or before it, goes below what a is capped to. */
  ghost predicate KeptArg(texts: seq<string>, all: seq<Arg>, a: Arg)
    requires a.buffer < |texts|
  {
    var v := Value(texts[a.buffer]);
    forall k :: 0 <= k < |all| && all[k].buffer == a.buffer ==> Capped(v, a.capacity) <= Capped(v, all[k].capacity)
  }

  ghost predicate Kept(texts: seq<string>, before: seq<Arg>, args: seq<Arg>)
    requires InTexts(args, |texts|)
  {
    forall k :: 0 <= k < |args| ==> KeptArg(texts, before + args, args[k])
  }

  /** The replay sees the argument as the direct call caps it, exactly if it is kept; else it sees less. */
  lemma KeptIff(texts: seq<string>, before: seq<Arg>, args: seq<Arg>, k: nat)
    requires InTexts(before, |texts|) && InTexts(args, |texts|) && k < |args|
    ensures InTexts(before + args, |texts|)
    ensures var v, w := Value(texts[args[k].buffer]), Value(Overwritten(texts, before + args)[args[k].buffer]);
            && 0 <= w <= Capped(v, args[k].capacity)
            && (w == Capped(v, args[k].capacity) <==> KeptArg(texts, before + args, args[k]))
  {
    var all, b := before + args, args[k].buffer;
    assert all[|before| + k] == args[k];
    OverwrittenValue(texts, all, b);
    CapAllLeast(Value(texts[b]), all, b);
  }

  /** Texts in buffers of their own are kept. */
  lemma DistinctKept(texts: seq<string>, before: seq<Arg>, args: seq<Arg>)
    requires InTexts(before, |texts|) && InTexts(args, |texts|)
    requires forall k, l :: 0 <= k < l < |args| ==> args[k].buffer != args[l].buffer
    requires forall k, l :: 0 <= k < |before| && 0 <= l < |args| ==> before[k].buffer != args[l].buffer
    ensures Kept(texts, before, args)
  {
  }

  /** One buffer for both coordinates of a point is kept exactly if the number fits the smaller capacity. */
  lemma SharedPointIff(texts: seq<string>, b: nat)
    requires b < |texts|
    ensures Kept(texts, [], Args(Pixel(b, b))) <==> Value(texts[b]) <= 199
  {
    var args, v := Args(Pixel(b, b)), Value(texts[b]);
    assert [] + args == args;
    assert args[0] == Arg(b, 319) && args[1] == Arg(b, 199);
    if Kept(texts, [], args) {
      assert KeptArg(texts, args, args[0]);
      assert Capped(v, 319) <= Capped(v, 199);
    }
  }

  // ----- replaying numbers

  /** What running a stored command does with the numbers in its texts. */
  function Replay(v: Picture, call: Drawing<int>): (w: Picture)
    requires IsScreen(v)
    ensures IsScreen(w)
  {
    match call
    case Pixel(x, y) => Draw(v, [Point(x, y)])
    case LineTo(x, y) => Draw(v, LinePoints(v.x, v.y, x, y)).(x := x, y := y)
    case MoveTo(x, y) => v.(x := x, y := y)
    case DeclarePen(i, r, g, b) => SetColour(v, i, r, g, b)
    case SelectPen(i) => v.(pen := i)
    case FillRect(top, bottom, right, left) => Draw(v, RectPoints(top, left, bottom, right))
  }

  lemma ExecuteReplays(v: Picture, h: nat, req: Drawing<nat>, texts: seq<string>)
    requires IsScreen(v) && Refers(req, |texts|)
    ensures Execute(v, Encode(h, req, texts)) == Replay(v, Meaning(req, texts))
  {
    RefersTo(req, |texts|);
    var c := Encode(h, req, texts);
    match req
    case Pixel(x, y) => assert c.args[1] == texts[x] && c.args[2] == texts[y];
    case LineTo(x, y) => assert c.args[1] == texts[x] && c.args[2] == texts[y];
    case MoveTo(x, y) => assert c.args[1] == texts[x] && c.args[2] == texts[y];
    case DeclarePen(i, r, g, b) =>
      assert c.args[1] == texts[i] && c.args[2] == texts[r] && c.args[3] == texts[g] && c.args[4] == texts[b];
    case SelectPen(i) => assert c.args[1] == texts[i];
    case FillRect(top, bottom, right, left) =>
      assert c.args[1] == texts[top] && c.args[2] == texts[left] && c.args[3] == texts[bottom] && c.args[4] == texts[right];
  }

  /** The queue keeps pen numbers below 51 only, and does not refuse the system's own pens. */
  predicate Queueable(call: Drawing<int>) {
    match call
    case DeclarePen(i, _, _, _) => 16 <= i <= 50
    case SelectPen(i) => 0 <= i <= 50
    case _ => true
  }

  function CapCall(call: Drawing<int>): Drawing<int> {
    match call
    case Pixel(x, y) => Pixel(Capped(x, 319), Capped(y, 199))
    case LineTo(x, y) => LineTo(Capped(x, 319), Capped(y, 199))
    case MoveTo(x, y) => MoveTo(Capped(x, 319), Capped(y, 199))
    case DeclarePen(i, r, g, b) => DeclarePen(Capped(i, 50), Capped(r, 63), Capped(g, 63), Capped(b, 63))
    case SelectPen(i) => SelectPen(Capped(i, 50))
    case FillRect(top, bottom, right, left) =>
      FillRect(Capped(top, 199), Capped(bottom, 199), Capped(right, 319), Capped(left, 319))
  }

  predicate UpTo(a: int, b: int) {
    0 <= a <= b
  }

  /** The same kind of call with arguments that are no greater. */
  predicate Below(f: Drawing<int>, c: Drawing<int>) {
    match c
    case Pixel(x, y) => f.Pixel? && UpTo(f.px, x) && UpTo(f.py, y)
    case LineTo(x, y) => f.LineTo? && UpTo(f.lx, x) && UpTo(f.ly, y)
    case MoveTo(x, y) => f.MoveTo? && UpTo(f.mx, x) && UpTo(f.my, y)
    case DeclarePen(i, r, g, b) => f.DeclarePen? && UpTo(f.index, i) && UpTo(f.r, r) && UpTo(f.g, g) && UpTo(f.b, b)
    case SelectPen(i) => f.SelectPen? && UpTo(f.pen, i)
    case FillRect(top, bottom, right, left) =>
      f.FillRect? && UpTo(f.top, top) && UpTo(f.bottom, bottom) && UpTo(f.right, right) && UpTo(f.left, left)
  }

  /** A rectangle without rows. */
  predicate NoRows(call: Drawing<int>) {
    call.FillRect? && call.bottom > call.top
  }

  /** A picture on which a wrong replay shows. */
  function Witness(): Picture {
    Picture(seq(VGASIZE, i => 0), seq(256, i => Colour(255, 255, 255)), 0, 0, 200)
  }

  lemma ReplaysKept(v: Picture, call: Drawing<int>)
    requires IsScreen(v) && Queueable(call)
    ensures Replay(v, CapCall(call)) == Perform(v, call)
  {
  }

  /** Two points on the screen have bytes of their own. */
  lemma PixelShows(p: Point, q: Point)
    requires 0 <= p.x < WIDTH && 0 <= p.y < HEIGHT && 0 <= q.x < WIDTH && 0 <= q.y < HEIGHT && p != q
    ensures Draw(Witness(), [p]) != Draw(Witness(), [q])
  {
    OffsetOnScreen(p);
    OffsetOnScreen(q);
    PaintOne(Witness().pix, p, 200);
    PaintOne(Witness().pix, q, 200);
    assert Draw(Witness(), [p]).pix[Offset(p)] == 200;
    assert Draw(Witness(), [q]).pix[Offset(p)] == 0;
  }

  lemma PenShows(f: Drawing<int>, call: Drawing<int>)
    requires call.DeclarePen? && Below(f, CapCall(call)) && !(Queueable(call) && f == CapCall(call))
    ensures Replay(Witness(), f) != Perform(Witness(), call)
  {
    var v := Witness();
    var replayed, direct := Replay(v, f).palette, Perform(v, call).palette;
    assert replayed[f.index] == Colour(f.r, f.g, f.b);
    assert direct[f.index] == if f.index == call.index && 16 <= f.index
                              then Colour(Capped(call.r, 63), Capped(call.g, 63), Capped(call.b, 63)) else Colour(255, 255, 255);
  }

  predicate InRect(r: Drawing<int>, x: int, y: int)
    requires r.FillRect?
  {
    r.bottom <= y <= r.top && Min(r.left, r.right) <= x <= Max(r.left, r.right)
  }

  /** Rectangles that start or end elsewhere differ in a corner of one of them. */
  lemma RectCorner(f: Drawing<int>, c: Drawing<int>) returns (x: nat, y: nat)
    requires c.FillRect? && CapCall(c) == c && Below(f, c) && f != c && !(NoRows(f) && NoRows(c))
    ensures x < WIDTH && y < HEIGHT && InRect(f, x, y) != InRect(c, x, y)
  {
    if NoRows(f) {
      x, y := c.left, c.bottom;
    } else if NoRows(c) || f.bottom < c.bottom {
      x, y := f.left, f.bottom;
    } else if f.top < c.top {
      x, y := c.left, c.top;
    } else {
      x := if Max(f.left, f.right) != Max(c.left, c.right) then Max(c.left, c.right) else Min(f.left, f.right);
      y := c.top;
    }
  }

  lemma RectShows(f: Drawing<int>, c: Drawing<int>)
    requires c.FillRect? && CapCall(c) == c && Below(f, c) && f != c && !(NoRows(f) && NoRows(c))
    ensures Replay(Witness(), f) != Replay(Witness(), c)
  {
    var v := Witness();
    var x, y := RectCorner(f, c);
    RectFillsExactly(v.pix, f.top, f.left, f.bottom, f.right, 200, x, y);
    RectFillsExactly(v.pix, c.top, c.left, c.bottom, c.right, 200, x, y);
    hide Paint, RectPoints;
    assert Replay(v, f).pix[WIDTH * y + x] != Replay(v, c).pix[WIDTH * y + x];
  }

  lemma EmptyRects(v: Picture, f: Drawing<int>, call: Drawing<int>)
    requires IsScreen(v) && NoRows(f) && NoRows(CapCall(call))
    ensures Replay(v, f) == Perform(v, call) == v
  {
  }

  /** Replaying the numbers f does, on every picture, what the direct call does. */
  ghost predicate ReplaysAs(f: Drawing<int>, call: Drawing<int>) {
    forall v: Picture :: IsScreen(v) ==> Replay(v, f) == Perform(v, call)
  }

  /** The numbers replayed draw what the direct call draws, on every picture, exactly if they are the capped ones, or there are no rows to fill. */
  lemma NumbersMatchIff(f: Drawing<int>, call: Drawing<int>)
    requires Below(f, CapCall(call))
    ensures ReplaysAs(f, call) <==>
            Queueable(call) && (f == CapCall(call) || (NoRows(f) && NoRows(CapCall(call))))
  {
    var c := CapCall(call);
    if Queueable(call) && (f == c || (NoRows(f) && NoRows(c))) {
      forall v: Picture | IsScreen(v)
        ensures Replay(v, f) == Perform(v, call)
      {
        if f == c {
          ReplaysKept(v, call);
        } else {
          EmptyRects(v, f, call);
        }
      }
    } else {
      assert IsScreen(Witness());
      MismatchShows(f, call);
    }
  }

  lemma MismatchShows(f: Drawing<int>, call: Drawing<int>)
    requires Below(f, CapCall(call))
    requires !(Queueable(call) && (f == CapCall(call) || (NoRows(f) && NoRows(CapCall(call)))))
    ensures Replay(Witness(), f) != Perform(Witness(), call)
  {
    var c := CapCall(call);
    match call
    case Pixel(x, y) => PixelShows(Point(f.px, f.py), Point(c.px, c.py));
    case LineTo(x, y) =>
    case MoveTo(x, y) =>
    case DeclarePen(i, r, g, b) => PenShows(f, call);
    case SelectPen(i) =>
    case FillRect(top, bottom, right, left) => RectShows(f, c);
  }

  // ----- replaying requests

  /** What the texts of a request are, as the replay reads them after the cappings before it and its own. */
  function Replayed(texts: seq<string>, before: seq<Arg>, req: Drawing<nat>): Drawing<int>
    requires InTexts(before, |texts|) && Refers(req, |texts|)
  {
    assert InTexts(before + Args(req), |texts|);
    Meaning(req, Overwritten(texts, before + Args(req)))
  }

  /** Whether a request that comes after these cappings is replayed as its direct call. */
  ghost predicate Faithful(texts: seq<string>, before: seq<Arg>, req: Drawing<nat>)
    requires InTexts(before, |texts|) && Refers(req, |texts|)
  {
    && Queueable(Meaning(req, texts))
    && (Kept(texts, before, Args(req)) || (NoRows(Replayed(texts, before, req)) && NoRows(CapCall(Meaning(req, texts)))))
  }

  lemma ReplayedBelow(texts: seq<string>, before: seq<Arg>, req: Drawing<nat>)
    requires InTexts(before, |texts|) && Refers(req, |texts|)
    ensures Below(Replayed(texts, before, req), CapCall(Meaning(req, texts)))
    ensures Replayed(texts, before, req) == CapCall(Meaning(req, texts)) <==> Kept(texts, before, Args(req))
  {
    var args := Args(req);
    hide Overwritten, KeptArg, InTexts, Value, Capped;
    RefersTo(req, |texts|);
    KeptIff(texts, before, args, 0);
    if |args| > 1 {
      KeptIff(texts, before, args, 1);
    }
    if |args| > 2 {
      KeptIff(texts, before, args, 2);
      KeptIff(texts, before, args, 3);
    }
  }

  lemma InTextsConcat(before: seq<Arg>, req: Drawing<nat>, n: nat)
    requires InTexts(before, n) && Refers(req, n)
    ensures InTexts(before + Args(req), n)
  {
  }

  lemma FaithfulIs(texts: seq<string>, before: seq<Arg>, req: Drawing<nat>)
    requires InTexts(before, |texts|) && Refers(req, |texts|) && InTexts(before + Args(req), |texts|)
    ensures Replayed(texts, before, req) == Meaning(req, Overwritten(texts, before + Args(req)))
    ensures Faithful(texts, before, req) <==>
            && Queueable(Meaning(req, texts))
            && (Kept(texts, before, Args(req)) || (NoRows(Replayed(texts, before, req)) && NoRows(CapCall(Meaning(req, texts)))))
  {
  }

  /** A stored command does, on every picture, what a direct call does. */
  ghost predicate Matches(c: Command, call: Drawing<int>)
    requires WellFormed(c)
  {
    forall v: Picture :: IsScreen(v) ==> Execute(v, c) == Perform(v, call)
  }

  lemma MatchesReplay(c: Command, f: Drawing<int>, call: Drawing<int>)
    requires WellFormed(c) && forall v: Picture :: IsScreen(v) ==> Execute(v, c) == Replay(v, f)
    ensures Matches(c, call) <==> ReplaysAs(f, call)
  {
    hide Execute, Replay, Perform, WellFormed, IsScreen;
  }

  lemma CommandMatchesIff(h: nat, req: Drawing<nat>, texts: seq<string>, call: Drawing<int>)
    requires Refers(req, |texts|)
    ensures Matches(Encode(h, req, texts), call) <==> ReplaysAs(Meaning(req, texts), call)
  {
    var c, f := Encode(h, req, texts), Meaning(req, texts);
    forall v: Picture | IsScreen(v)
      ensures Execute(v, c) == Replay(v, f)
    {
      ExecuteReplays(v, h, req, texts);
    }
    hide *;
    MatchesReplay(c, f, call);
  }

  /**
   A queued request is replayed as its direct call on every picture exactly if its pen
   numbers can be queued and no capping, in a buffer used twice, goes below what the
   direct call caps to; a rectangle may differ as long as it has no rows.
   */
  lemma ReplayMatchesIff(h: nat, texts: seq<string>, before: seq<Arg>, req: Drawing<nat>)
    requires InTexts(before, |texts|) && Refers(req, |texts|)
    ensures InTexts(before + Args(req), |texts|)
    ensures Matches(Encode(h, req, Overwritten(texts, before + Args(req))), Meaning(req, texts)) <==> Faithful(texts, before, req)
  {
    InTextsConcat(before, req, |texts|);
    hide *;
    FaithfulIs(texts, before, req);
    ReplayedBelow(texts, before, req);
    CommandMatchesIff(h, req, Overwritten(texts, before + Args(req)), Meaning(req, texts));
    NumbersMatchIff(Replayed(texts, before, req), Meaning(req, texts));
  }

  ghost predicate Alone(texts: seq<string>, req: Drawing<nat>) {
    Refers(req, |texts|) && forall k, l :: 0 <= k < l < |Args(req)| ==> Args(req)[k].buffer != Args(req)[l].buffer
  }

  lemma AloneFaithful(texts: seq<string>, req: Drawing<nat>)
    requires Alone(texts, req)
    ensures InTexts([], |texts|) && [] + Args(req) == Args(req)
    ensures Faithful(texts, [], req) <==> Queueable(Meaning(req, texts))
  {
    DistinctKept(texts, [], Args(req));
    hide Queueable, Meaning, Kept, Args;
  }

  /** A request with texts of its own is replayed as its direct call exactly if its pen can be queued. */
  lemma AloneReplaysIff(h: nat, texts: seq<string>, req: Drawing<nat>)
    requires Alone(texts, req)
    ensures InTexts(Args(req), |texts|)
    ensures Matches(Encode(h, req, Overwritten(texts, Args(req))), Meaning(req, texts)) <==> Queueable(Meaning(req, texts))
  {
    AloneFaithful(texts, req);
    hide Queueable, Meaning, Kept, Args, Encode, Overwritten, Faithful, Matches, InTexts;
    ReplayMatchesIff(h, texts, [], req);
  }

  /** A colour request with texts of its own is replayed as its direct call exactly for pens 16 to 50. */
  lemma ColourReplaysIff(h: nat, texts: seq<string>, i: nat, r: nat, g: nat, b: nat)
    requires i < |texts| && r < |texts| && g < |texts| && b < |texts|
    requires i != r && i != g && i != b && r != g && r != b && g != b
    ensures var req := DeclarePen(i, r, g, b);
            && Refers(req, |texts|)
            && (Matches(Encode(h, req, Overwritten(texts, Args(req))), Meaning(req, texts)) <==> 16 <= Value(texts[i]) <= 50)
  {
    hide Encode, Overwritten, Matches, Value;
    AloneReplaysIff(h, texts, DeclarePen(i, r, g, b));
  }

  /** A pen request exactly for pens 0 to 50. */
  lemma SelectReplaysIff(h: nat, texts: seq<string>, i: nat)
    requires i < |texts|
    ensures var req := SelectPen(i);
            && Refers(req, |texts|)
            && (Matches(Encode(h, req, Overwritten(texts, Args(req))), Meaning(req, texts)) <==> 0 <= Value(texts[i]) <= 50)
  {
    hide Encode, Overwritten, Matches, Value;
    AloneReplaysIff(h, texts, SelectPen(i));
  }

  /** All cappings of a list of requests. */
  function ArgsAll(reqs: seq<Drawing<nat>>): seq<Arg>
    decreases |reqs|
  {
    if reqs == [] then [] else ArgsAll(reqs[..|reqs| - 1]) + Args(reqs[|reqs| - 1])
  }

  predicate AllRefer(reqs: seq<Drawing<nat>>, n: nat) {
    forall i :: 0 <= i < |reqs| ==> Refers(reqs[i], n)
  }

  lemma {:induction false} ArgsInTexts(reqs: seq<Drawing<nat>>, n: nat)
    requires AllRefer(reqs, n)
    ensures InTexts(ArgsAll(reqs), n)
    decreases |reqs|
  {
    if reqs != [] {
      ArgsInTexts(reqs[..|reqs| - 1], n);
    }
  }

  /** The queue that a list of requests leaves, whose texts are in the given buffers at first. */
  function EncodeAll(h: nat, texts: seq<string>, reqs: seq<Drawing<nat>>): (cs: seq<Command>)
    requires AllRefer(reqs, |texts|)
    ensures |cs| == |reqs| && forall i :: 0 <= i < |cs| ==> WellFormed(cs[i]) && cs[i].args[0] == Text(h)
    decreases |reqs|
  {
    if reqs == [] then []
    else
      ArgsInTexts(reqs, |texts|);
      EncodeAll(h, texts, reqs[..|reqs| - 1]) + [Encode(h, reqs[|reqs| - 1], Overwritten(texts, ArgsAll(reqs)))]
  }

  /** The direct calls that the buffers spell out at first. */
  function MeaningAll(texts: seq<string>, reqs: seq<Drawing<nat>>): (calls: seq<Drawing<int>>)
    requires AllRefer(reqs, |texts|)
    ensures |calls| == |reqs|
  {
    seq(|reqs|, i requires 0 <= i < |reqs| => Meaning(reqs[i], texts))
  }

  ghost predicate FaithfulAt(texts: seq<string>, reqs: seq<Drawing<nat>>, i: nat)
    requires AllRefer(reqs, |texts|) && i < |reqs|
  {
    ArgsInTexts(reqs[..i], |texts|);
    Faithful(texts, ArgsAll(reqs[..i]), reqs[i])
  }

  ghost predicate AllFaithful(texts: seq<string>, reqs: seq<Drawing<nat>>)
    requires AllRefer(reqs, |texts|)
  {
    forall i: nat :: i < |reqs| ==> FaithfulAt(texts, reqs, i)
  }

  lemma FaithfulPrefix(texts: seq<string>, reqs: seq<Drawing<nat>>, n: nat)
    requires AllRefer(reqs, |texts|) && n <= |reqs| && AllFaithful(texts, reqs)
    ensures AllFaithful(texts, reqs[..n])
  {
    hide Faithful;
    forall i: nat | i < n
      ensures FaithfulAt(texts, reqs[..n], i)
    {
      assert FaithfulAt(texts, reqs, i);
      assert reqs[..n][..i] == reqs[..i];
    }
  }

  /** The last command, run on any picture, is the last direct call. */
  lemma LastMatches(w: Picture, h: nat, texts: seq<string>, reqs: seq<Drawing<nat>>)
    requires IsScreen(w) && reqs != [] && AllRefer(reqs, |texts|) && FaithfulAt(texts, reqs, |reqs| - 1)
    ensures Execute(w, EncodeAll(h, texts, reqs)[|reqs| - 1]) == Perform(w, MeaningAll(texts, reqs)[|reqs| - 1])
  {
    hide Faithful, Execute, Perform, Encode, Meaning, Overwritten, InTexts, Args, Refers;
    var n := |reqs| - 1;
    ArgsInTexts(reqs[..n], |texts|);
    ReplayMatchesIff(h, texts, ArgsAll(reqs[..n]), reqs[n]);
  }

  lemma ListsUnfold(h: nat, texts: seq<string>, reqs: seq<Drawing<nat>>)
    requires reqs != [] && AllRefer(reqs, |texts|)
    ensures EncodeAll(h, texts, reqs)[..|reqs| - 1] == EncodeAll(h, texts, reqs[..|reqs| - 1])
    ensures MeaningAll(texts, reqs)[..|reqs| - 1] == MeaningAll(texts, reqs[..|reqs| - 1])
  {
    hide Encode, Meaning, Overwritten, InTexts, Args, Refers;
  }

  lemma ExecuteLast(v: Picture, cs: seq<Command>)
    requires IsScreen(v) && cs != [] && forall i :: 0 <= i < |cs| ==> WellFormed(cs[i])
    ensures ExecuteAll(v, cs) == Execute(ExecuteAll(v, cs[..|cs| - 1]), cs[|cs| - 1])
  {
    hide Execute, WellFormed;
  }

  lemma PerformLast(v: Picture, calls: seq<Drawing<int>>)
    requires IsScreen(v) && calls != []
    ensures PerformAll(v, calls) == Perform(PerformAll(v, calls[..|calls| - 1]), calls[|calls| - 1])
  {
    hide Perform;
  }

  /** Any list of faithful requests, replayed in order, leaves the memory, palette, cursor and pen of the direct calls. */
  lemma {:induction false} ReplayMatchesDirect(v: Picture, h: nat, texts: seq<string>, reqs: seq<Drawing<nat>>)
    requires IsScreen(v) && AllRefer(reqs, |texts|) && AllFaithful(texts, reqs)
    ensures ExecuteAll(v, EncodeAll(h, texts, reqs)) == PerformAll(v, MeaningAll(texts, reqs))
    decreases |reqs|
  {
    if reqs != [] {
      var n := |reqs| - 1;
      FaithfulPrefix(texts, reqs, n);
      assert FaithfulAt(texts, reqs, n);
      hide *;
      ReplayMatchesDirect(v, h, texts, reqs[..n]);
      ListsUnfold(h, texts, reqs);
      ExecuteLast(v, EncodeAll(h, texts, reqs));
      PerformLast(v, MeaningAll(texts, reqs));
      LastMatches(PerformAll(v, MeaningAll(texts, reqs[..n])), h, texts, reqs);
    }
  }

  /** Requests of queueable calls whose texts share no memory are all faithful. */
  lemma ApartIsFaithful(texts: seq<string>, reqs: seq<Drawing<nat>>)
    requires AllRefer(reqs, |texts|)
    requires forall i :: 0 <= i < |reqs| ==> Queueable(Meaning(reqs[i], texts))
    requires forall k, l :: 0 <= k < l < |ArgsAll(reqs)| ==> ArgsAll(reqs)[k].buffer != ArgsAll(reqs)[l].buffer
    ensures AllFaithful(texts, reqs)
  {
    forall i: nat | i < |reqs|
      ensures FaithfulAt(texts, reqs, i)
    {
      ArgsInTexts(reqs[..i], |texts|);
      ArgsAt(reqs, i);
      hide InTexts, Args, Queueable;
      DistinctKept(texts, ArgsAll(reqs[..i]), Args(reqs[i]));
    }
  }

  /** The arguments of the i-th request in those of all. */
  lemma ArgsAt(reqs: seq<Drawing<nat>>, i: nat)
    requires i < |reqs|
    ensures var before, all := ArgsAll(reqs[..i]), ArgsAll(reqs);
            && |before| + |Args(reqs[i])| <= |all|
            && (forall k :: 0 <= k < |before| ==> before[k] == all[k])
            && forall k :: 0 <= k < |Args(reqs[i])| ==> Args(reqs[i])[k] == all[|before| + k]
  {
    hide Args, ArgsAll;
    ArgsPrefix(reqs, i + 1);
    ArgsUnfold(reqs, i);
    var before, all := ArgsAll(reqs[..i]), ArgsAll(reqs);
    assert before + Args(reqs[i]) == all[..|before| + |Args(reqs[i])|];
  }

  lemma ArgsUnfold(reqs: seq<Drawing<nat>>, i: nat)
    requires i < |reqs|
    ensures ArgsAll(reqs[..i + 1]) == ArgsAll(reqs[..i]) + Args(reqs[i])
  {
    hide Args;
    assert reqs[..i + 1][..i] == reqs[..i];
  }

  lemma {:induction false} ArgsPrefix(reqs: seq<Drawing<nat>>, i: nat)
    requires i <= |reqs|
    ensures ArgsAll(reqs[..i]) <= ArgsAll(reqs)
    decreases |reqs|
  {
    if i == |reqs| {
      assert reqs[..i] == reqs;
    } else {
      ArgsPrefix(reqs[..|reqs| - 1], i);
      assert reqs[..|reqs| - 1][..i] == reqs[..i];
    }
  }

  // ----- what a call leaves in memory, palette, cursor and pen

  /** A number moved into 0 to the capacity. */
  function Cut(a: int, capacity: nat): int {
    if a < 0 then 0 else if a > capacity then capacity else a
  }

  /** The bytes that the points hit have the pen's number, and the others are as before. */
  ghost predicate Coloured(v: Picture, w: Picture, pts: seq<Point>) {
    |w.pix| == |v.pix| && forall o :: 0 <= o < |v.pix| ==> w.pix[o] == if Hits(pts, o) then v.pen % 0x100 else v.pix[o]
  }

  predicate OnScreen(x: int, y: int) {
    0 <= x < WIDTH && 0 <= y < HEIGHT
  }

  /** The rectangle's pixels have the pen's number, and the other pixels of the screen are as before. */
  ghost predicate Filled(v: Picture, w: Picture, top: int, bottom: int, right: int, left: int) {
    |w.pix| == |v.pix| == VGASIZE && forall x, y :: OnScreen(x, y) ==>
      w.pix[WIDTH * y + x]
      == if bottom <= y <= top && (left <= x <= right || right <= x <= left) then v.pen % 0x100 else v.pix[WIDTH * y + x]
  }

  /** Drawing with these numbers turns v into w. */
  ghost predicate Drawn(v: Picture, call: Drawing<int>, w: Picture) {
    match call
    case Pixel(x, y) =>
      && w == v.(pix := w.pix) && |w.pix| == |v.pix|
      && forall o :: 0 <= o < |v.pix| ==> w.pix[o] == if o == (320 * y + x) % 0x1_0000 then v.pen % 0x100 else v.pix[o]
    case LineTo(x, y) =>
      w == v.(pix := w.pix, x := x, y := y) && Coloured(v, w, LinePoints(v.x, v.y, x, y))
    case MoveTo(x, y) =>
      w.x == x && w.y == y && w.pix == v.pix && w.palette == v.palette && w.pen == v.pen
    case DeclarePen(i, r, g, b) =>
      && w == v.(palette := w.palette) && |w.palette| == |v.palette| == 256
      && (var pen := w.palette[i % 0x100]; pen.r == r % 0x100 && pen.g == g % 0x100 && pen.b == b % 0x100)
      && forall k :: 0 <= k < 256 && k != i % 0x100 ==> w.palette[k] == v.palette[k]
    case SelectPen(i) =>
      w.pen == i && w.pix == v.pix && w.palette == v.palette && w.x == v.x && w.y == v.y
    case FillRect(top, bottom, right, left) =>
      && w == v.(pix := w.pix) && Coloured(v, w, RectPoints(top, left, bottom, right))
      && (0 <= bottom && top < HEIGHT && 0 <= left < WIDTH && 0 <= right < WIDTH ==> Filled(v, w, top, bottom, right, left))
  }

  lemma DrawColours(v: Picture, pts: seq<Point>)
    requires IsScreen(v)
    ensures Draw(v, pts) == v.(pix := Draw(v, pts).pix) && Coloured(v, Draw(v, pts), pts)
  {
    forall o | 0 <= o < VGASIZE
      ensures Draw(v, pts).pix[o] == if Hits(pts, o) then v.pen % 0x100 else v.pix[o]
    {
      PaintAt(v.pix, pts, v.pen % 0x100, o);
    }
  }

  lemma RectFills(v: Picture, top: int, bottom: int, right: int, left: int)
    requires IsScreen(v) && 0 <= bottom && top < HEIGHT && 0 <= left < WIDTH && 0 <= right < WIDTH
    ensures Filled(v, Draw(v, RectPoints(top, left, bottom, right)), top, bottom, right, left)
  {
    hide Paint, RectPoints;
    forall x, y | OnScreen(x, y)
      ensures Draw(v, RectPoints(top, left, bottom, right)).pix[WIDTH * y + x]
           == if bottom <= y <= top && (left <= x <= right || right <= x <= left) then v.pen % 0x100 else v.pix[WIDTH * y + x]
    {
      RectFillsExactly(v.pix, top, left, bottom, right, v.pen % 0x100, x, y);
    }
  }

  lemma ReplayDrawn(v: Picture, call: Drawing<int>)
    requires IsScreen(v)
    ensures Drawn(v, call, Replay(v, call))
  {
    hide Paint, LinePoints, RectPoints, Coloured, Filled;
    match call
    case Pixel(x, y) => PaintOne(v.pix, Point(x, y), v.pen % 0x100);
    case LineTo(x, y) =>
      DrawColours(v, LinePoints(v.x, v.y, x, y));
      ColouredMoves(v, Draw(v, LinePoints(v.x, v.y, x, y)), LinePoints(v.x, v.y, x, y), x, y);
    case MoveTo(x, y) =>
    case DeclarePen(i, r, g, b) =>
    case SelectPen(i) =>
    case FillRect(top, bottom, right, left) =>
      DrawColours(v, RectPoints(top, left, bottom, right));
      if 0 <= bottom && top < HEIGHT && 0 <= left < WIDTH && 0 <= right < WIDTH {
        RectFills(v, top, bottom, right, left);
      }
  }

  lemma ColouredMoves(v: Picture, w: Picture, pts: seq<Point>, x: int, y: int)
    requires Coloured(v, w, pts)
    ensures Coloured(v, w.(x := x, y := y), pts)
  {
  }

  /** A direct call cuts its numbers to the screen, or to a pen's range, and draws with them; it leaves pens out of range alone. */
  ghost predicate Leaves(v: Picture, call: Drawing<int>, w: Picture) {
    match call
    case Pixel(x, y) => Drawn(v, Pixel(Cut(x, 319), Cut(y, 199)), w)
    case LineTo(x, y) => Drawn(v, LineTo(Cut(x, 319), Cut(y, 199)), w)
    case MoveTo(x, y) => Drawn(v, MoveTo(Cut(x, 319), Cut(y, 199)), w)
    case DeclarePen(i, r, g, b) =>
      if i < 16 || i > 255 then w == v else Drawn(v, DeclarePen(i, Cut(r, 63), Cut(g, 63), Cut(b, 63)), w)
    case SelectPen(i) => if i > 255 then w == v else Drawn(v, SelectPen(i), w)
    case FillRect(top, bottom, right, left) =>
      Drawn(v, FillRect(Cut(top, 199), Cut(bottom, 199), Cut(right, 319), Cut(left, 319)), w)
  }

  /** Every direct call leaves the bytes, pens, cursor and pen number that its arguments say. */
  lemma PerformLeaves(v: Picture, call: Drawing<int>)
    requires IsScreen(v)
    ensures Leaves(v, call, Perform(v, call))
  {
    hide Paint, LinePoints, RectPoints, Drawn;
    match call
    case Pixel(x, y) => ReplayDrawn(v, Pixel(Cut(x, 319), Cut(y, 199)));
    case LineTo(x, y) => ReplayDrawn(v, LineTo(Cut(x, 319), Cut(y, 199)));
    case MoveTo(x, y) => ReplayDrawn(v, MoveTo(Cut(x, 319), Cut(y, 199)));
    case DeclarePen(i, r, g, b) => ReplayDrawn(v, DeclarePen(i, Cut(r, 63), Cut(g, 63), Cut(b, 63)));
    case SelectPen(i) => ReplayDrawn(v, call);
    case FillRect(top, bottom, right, left) =>
      ReplayDrawn(v, FillRect(Cut(top, 199), Cut(bottom, 199), Cut(right, 319), Cut(left, 319)));
  }

  /** The numbers that a stored command's texts spell out, in the order of its arguments. */
  ghost predicate DrawnBy(v: Picture, c: Command, w: Picture)
    requires WellFormed(c)
  {
    match c.action
    case PixelSetterFuncQueue => Drawn(v, Pixel(Value(c.args[1]), Value(c.args[2])), w)
    case LineDrawFunc => Drawn(v, LineTo(Value(c.args[1]), Value(c.args[2])), w)
    case MovePosFunc => Drawn(v, MoveTo(Value(c.args[1]), Value(c.args[2])), w)
    case DeclarePenFunc => Drawn(v, DeclarePen(Value(c.args[1]), Value(c.args[2]), Value(c.args[3]), Value(c.args[4])), w)
    case GetPenFunc => Drawn(v, SelectPen(Value(c.args[1])), w)
    case DrawRect =>
      Drawn(v, FillRect(Value(c.args[1]), Value(c.args[3]), Value(c.args[4]), Value(c.args[2])), w)
  }

  lemma ExecuteDraws(v: Picture, c: Command)
    requires IsScreen(v) && WellFormed(c)
    ensures DrawnBy(v, c, Execute(v, c))
  {
    hide Paint, LinePoints, RectPoints, Drawn, Value;
    match c.action
    case PixelSetterFuncQueue => ReplayDrawn(v, Pixel(Value(c.args[1]), Value(c.args[2])));
    case LineDrawFunc => ReplayDrawn(v, LineTo(Value(c.args[1]), Value(c.args[2])));
    case MovePosFunc => ReplayDrawn(v, MoveTo(Value(c.args[1]), Value(c.args[2])));
    case DeclarePenFunc => ReplayDrawn(v, DeclarePen(Value(c.args[1]), Value(c.args[2]), Value(c.args[3]), Value(c.args[4])));
    case GetPenFunc => ReplayDrawn(v, SelectPen(Value(c.args[1])));
    case DrawRect => ReplayDrawn(v, FillRect(Value(c.args[1]), Value(c.args[3]), Value(c.args[4]), Value(c.args[2])));
  }

  /** A request whose texts share no buffer, queued and replayed, leaves what the direct call with its numbers leaves. */
  lemma ReplayLeaves(v: Picture, h: nat, texts: seq<string>, req: Drawing<nat>)
    requires IsScreen(v) && Alone(texts, req) && Queueable(Meaning(req, texts))
    ensures Leaves(v, Meaning(req, texts), Execute(v, Encode(h, req, Overwritten(texts, Args(req)))))
  {
    AloneReplaysIff(h, texts, req);
    hide *;
    MatchesOn(v, Encode(h, req, Overwritten(texts, Args(req))), Meaning(req, texts));
    PerformLeaves(v, Meaning(req, texts));
  }

  lemma MatchesOn(v: Picture, c: Command, call: Drawing<int>)
    requires IsScreen(v) && WellFormed(c) && Matches(c, call)
    ensures Execute(v, c) == Perform(v, call)
  {
    hide Execute, Perform, IsScreen, WellFormed;
  }

  // ----- the code

  class Display {
    const pixMem: array<Byte>       // video memory from 0xA0000
    var palette: seq<Colour>        // the pens behind ports 0x3C8 and 0x3C9
    var hdcs: seq<Hdc>

    constructor ()
      ensures Valid() && fresh(pixMem)
      ensures forall h :: 0 <= h < HDCS ==> !hdcs[h].init
    {
      pixMem := new Byte[VGASIZE](_ => 0);
      palette := seq(256, i => Colour(0, 0, 0));
      hdcs := seq(HDCS, i => Hdc(false, 0, 0, 0, []));
    }

    ghost predicate Valid()
      reads this, pixMem
    {
      pixMem.Length == VGASIZE && |palette| == 256 && |hdcs| == HDCS
    }

    ghost function View(h: nat): (v: Picture)
      reads this, pixMem
      requires Valid() && h < HDCS
      ensures IsScreen(v)
    {
      Picture(pixMem[..], palette, hdcs[h].x, hdcs[h].y, hdcs[h].penIndex)
    }

    /** Context h now shows v, and nothing else changed since the contexts were as given. */
    ghost predicate Became(was: seq<Hdc>, h: nat, v: Picture)
      reads this, pixMem
      requires |was| == HDCS && h < HDCS
    {
      && Valid() && View(h) == v
      && hdcs == was[h := was[h].(x := v.x, y := v.y, penIndex := v.pen)]
    }

    method PixelSetterFunc(h: nat, x: int, y: int)
      requires Valid() && h < HDCS
      modifies pixMem
      ensures pixMem[..] == old(pixMem[..])[Offset(Point(x, y)) := hdcs[h].penIndex % 0x100]
    {
      var offset := (320 * y + x) % 0x1_0000;
      pixMem[offset] := hdcs[h].penIndex % 0x100;
    }

    method XIncPlotter(x0: int, y0: int, x1: int, y1: int, h: nat)
      requires Valid() && h < HDCS
      requires x0 <= x1 && Abs(y1 - y0) <= x1 - x0
      modifies pixMem
      ensures pixMem[..] == Paint(old(pixMem[..]), XPoints(x0, y0, x1, y1), hdcs[h].penIndex % 0x100)
    {
      var xInc, yInc := Abs(x1 - x0), Abs(y1 - y0);
      var direc := if y0 > y1 then -1 else 1;
      var D := 2 * yInc - xInc;
      var curY, curX := y0, x0;
      ghost var pts, c := XPoints(x0, y0, x1, y1), hdcs[h].penIndex % 0x100;
      ghost var k := 0;
      FirstStep(yInc, xInc);
      while curX <= x1
        invariant k == curX - x0 && 0 <= k <= |pts|
        invariant curX <= x1 ==> curY == y0 + direc * Nearest(yInc, xInc, k)
        invariant curX <= x1 ==> D == 2 * yInc - xInc + 2 * (yInc * k) - 2 * (xInc * Nearest(yInc, xInc, k))
        invariant pixMem[..] == Paint(old(pixMem[..]), pts[..k], c)
      {
        assert pts[k] == Point(curX, curY);
        assert pts[..k + 1][..k] == pts[..k];
        PixelSetterFunc(h, curX, curY);
        if curX < x1 {
          PlotStep(yInc, xInc, k, direc, y0);
        }
        if D >= 0 {
          curY := curY + direc;
          D := D - 2 * xInc;
        }
        D := D + 2 * yInc;
        curX := curX + 1;
        k := k + 1;
      }
      assert pts[..k] == pts;
    }

    method YIncPlotter(x0: int, y0: int, x1: int, y1: int, h: nat)
      requires Valid() && h < HDCS
      requires y0 <= y1 && Abs(x1 - x0) <= y1 - y0
      modifies pixMem
      ensures pixMem[..] == Paint(old(pixMem[..]), YPoints(x0, y0, x1, y1), hdcs[h].penIndex % 0x100)
    {
      var xInc, yInc := Abs(x1 - x0), Abs(y1 - y0);
      var direc := if x0 > x1 then -1 else 1;
      var D := 2 * xInc - yInc;
      var curX, curY := x0, y0;
      ghost var pts, c := YPoints(x0, y0, x1, y1), hdcs[h].penIndex % 0x100;
      ghost var k := 0;
      FirstStep(xInc, yInc);
      while curY <= y1
        invariant k == curY - y0 && 0 <= k <= |pts|
        invariant curY <= y1 ==> curX == x0 + direc * Nearest(xInc, yInc, k)
        invariant curY <= y1 ==> D == 2 * xInc - yInc + 2 * (xInc * k) - 2 * (yInc * Nearest(xInc, yInc, k))
        invariant pixMem[..] == Paint(old(pixMem[..]), pts[..k], c)
      {
        assert pts[k] == Point(curX, curY);
        assert pts[..k + 1][..k] == pts[..k];
        PixelSetterFunc(h, curX, curY);
        if curY < y1 {
          PlotStep(xInc, yInc, k, direc, x0);
        }
        if D >= 0 {
          curX := curX + direc;
          D := D - 2 * yInc;
        }
        D := D + 2 * xInc;
        curY := curY + 1;
        k := k + 1;
      }
      assert pts[..k] == pts;
    }

    method LineDraw(x0: int, y0: int, x1: int, y1: int, h: nat)
      requires Valid() && h < HDCS
      modifies pixMem
      ensures pixMem[..] == Paint(old(pixMem[..]), LinePoints(x0, y0, x1, y1), hdcs[h].penIndex % 0x100)
    {
      var xDif, yDif := x1 - x0, y1 - y0;
      var yAbs, xAbs := Abs(yDif), Abs(xDif);
      if yAbs < xAbs {
        if xDif <= 0 {
          XIncPlotter(x1, y1, x0, y0, h);
        } else {
          XIncPlotter(x0, y0, x1, y1, h);
        }
      } else {
        if yDif <= 0 {
          YIncPlotter(x1, y1, x0, y0, h);
        } else {
          YIncPlotter(x0, y0, x1, y1, h);
        }
      }
    }

    method FillRows(top: int, left: int, bottom: int, right: int, h: nat)
      requires Valid() && h < HDCS
      modifies pixMem
      ensures pixMem[..] == Paint(old(pixMem[..]), RectPoints(top, left, bottom, right), hdcs[h].penIndex % 0x100)
    {
      ghost var pix, c := pixMem[..], hdcs[h].penIndex % 0x100;
      var y := bottom;
      while y <= top
        invariant bottom <= top ==> bottom <= y <= top + 1
        invariant bottom > top ==> y == bottom
        invariant pixMem[..] == Paint(pix, RectPoints(y - 1, left, bottom, right), c)
      {
        LineDraw(left, y, right, y, h);
        PaintConcat(pix, RectPoints(y - 1, left, bottom, right), LinePoints(left, y, right, y), c);
        y := y + 1;
      }
      assert bottom > top ==> RectPoints(y - 1, left, bottom, right) == [] == RectPoints(top, left, bottom, right);
    }

    method MovePos(h: nat, x: int, y: int)
      requires Valid() && h < HDCS
      modifies `hdcs
      ensures Became(old(hdcs), h, old(View(h)).(x := x, y := y))
    {
      hdcs := hdcs[h := hdcs[h].(x := x, y := y)];
    }

    // -- direct system calls on context h

    method SysSetPixel(h: nat, x: int, y: int)
      requires Valid() && h < HDCS
      modifies pixMem
      ensures Became(old(hdcs), h, Perform(old(View(h)), Pixel(x, y)))
      ensures Leaves(old(View(h)), Pixel(x, y), View(h))
    {
      hide Leaves;
      PerformLeaves(View(h), Pixel(x, y));
      var cx := ValueCapper(x, 319);
      var cy := ValueCapper(y, 199);
      PaintOne(pixMem[..], Point(cx, cy), hdcs[h].penIndex % 0x100);
      PixelSetterFunc(h, cx, cy);
    }

    method SysMoveTo(h: nat, x: int, y: int)
      requires Valid() && h < HDCS
      modifies `hdcs
      ensures Became(old(hdcs), h, Perform(old(View(h)), MoveTo(x, y)))
      ensures Leaves(old(View(h)), MoveTo(x, y), View(h))
    {
      hide Leaves;
      PerformLeaves(View(h), MoveTo(x, y));
      var cx := ValueCapper(x, 319);
      var cy := ValueCapper(y, 199);
      MovePos(h, cx, cy);
    }

    method SysLineTo(h: nat, x: int, y: int)
      requires Valid() && h < HDCS
      modifies pixMem, `hdcs
      ensures Became(old(hdcs), h, Perform(old(View(h)), LineTo(x, y)))
      ensures Leaves(old(View(h)), LineTo(x, y), View(h))
    {
      hide Leaves;
      PerformLeaves(View(h), LineTo(x, y));
      var nx := ValueCapper(x, 319);
      var ny := ValueCapper(y, 199);
      LineDraw(hdcs[h].x, hdcs[h].y, nx, ny, h);
      MovePos(h, nx, ny);
    }

    method SysSetPenColour(h: nat, index: int, r: int, g: int, b: int) returns (ret: int)
      requires Valid() && h < HDCS
      modifies `palette
      ensures Became(old(hdcs), h, Perform(old(View(h)), DeclarePen(index, r, g, b)))
      ensures Leaves(old(View(h)), DeclarePen(index, r, g, b), View(h))
      ensures ret == if 16 <= index <= 255 then 0 else -1
      ensures |palette| == 256 && (ret == -1 ==> palette == old(palette))
      ensures ret == 0 ==>
        && palette[index].r == (if r < 0 then 0 else if r > 63 then 63 else r)
        && palette[index].g == (if g < 0 then 0 else if g > 63 then 63 else g)
        && palette[index].b == (if b < 0 then 0 else if b > 63 then 63 else b)
        && forall k :: 0 <= k < 256 && k != index ==> palette[k] == old(palette)[k]
    {
      hide Leaves;
      PerformLeaves(View(h), DeclarePen(index, r, g, b));
      var cr := ValueCapper(r, 63);
      var cg := ValueCapper(g, 63);
      var cb := ValueCapper(b, 63);
      if index < 16 {
        return -1;
      } else if index > 255 {
        return -1;
      }
      palette := palette[index := Colour(cr, cg, cb)];
      return 0;
    }

    method SysSelectPen(h: nat, index: int) returns (ret: int)
      requires Valid() && h < HDCS
      modifies `hdcs
      ensures Became(old(hdcs), h, Perform(old(View(h)), SelectPen(index)))
      ensures Leaves(old(View(h)), SelectPen(index), View(h))
      ensures ret == if index > 255 then -1 else 0
    {
      hide Leaves;
      PerformLeaves(View(h), SelectPen(index));
      if index > 255 {
        return -1;
      }
      hdcs := hdcs[h := hdcs[h].(penIndex := index)];
      return 0;
    }

    method SysFillRect(h: nat, top: int, left: int, bottom: int, right: int)
      requires Valid() && h < HDCS
      modifies pixMem
      ensures Became(old(hdcs), h, Perform(old(View(h)), FillRect(top, bottom, right, left)))
      ensures Leaves(old(View(h)), FillRect(top, bottom, right, left), View(h))
    {
      hide Leaves, Paint, RectPoints, LinePoints;
      PerformLeaves(View(h), FillRect(top, bottom, right, left));
      var ctop := ValueCapper(top, 199);
      var cbottom := ValueCapper(bottom, 199);
      var cleft := ValueCapper(left, 319);
      var cright := ValueCapper(right, 319);
      FillRows(ctop, cleft, cbottom, cright, h);
    }

    // -- queueing

    /** One argument slot: the first four bytes of the text, its NUL among them. */
    method AppendArg(argument: string, args: seq<string>) returns (r: seq<string>)
      requires |argument| <= 3
      ensures r == args + [argument]
    {
      r := args + [argument];
    }

    /** ParseChar(ValueCapperChar(a, capacity), a): the caller's text becomes that of the capped number. */
    method CapText(texts: array<string>, b: nat, capacity: nat)
      requires b < texts.Length && capacity < 1000
      modifies texts
      ensures texts[..] == old(texts[..])[b := CappedText(old(texts[b]), capacity)] && |texts[b]| <= 3
    {
      var n := ParseInt(texts[b]);
      var c := ValueCapper(n, capacity);
      CappedTextReadsBack(texts[b], capacity);
      var text := ParseChar(c);
      texts[b] := text;
    }

    method StartArgs(h: nat) returns (args: seq<string>)
      requires h < HDCS
      ensures args == [Text(h)]
    {
      var str := ParseChar(h);
      args := AppendArg(str, []);
    }

    method Enqueue(h: nat, c: Command)
      requires Valid() && h < HDCS && |hdcs[h].queue| < QUEUESIZE
      modifies `hdcs
      ensures hdcs == old(hdcs)[h := old(hdcs[h]).(queue := old(hdcs[h].queue) + [c])]
    {
      hdcs := hdcs[h := hdcs[h].(queue := hdcs[h].queue + [c])];
    }

    method AppendPoint(h: nat, action: Action, texts: array<string>, x: nat, y: nat)
      requires Valid() && h < HDCS && |hdcs[h].queue| < QUEUESIZE && x < texts.Length && y < texts.Length
      modifies `hdcs, texts
      ensures texts[..] == Overwritten(old(texts[..]), [Arg(x, 319), Arg(y, 199)])
      ensures hdcs == old(hdcs)[h := old(hdcs[h]).(queue := old(hdcs[h].queue) + [Command(action, [Text(h), texts[x], texts[y]])])]
    {
      hide CappedText, Text, Overwritten;
      var args := StartArgs(h);
      Overwrites2(texts[..], [Arg(x, 319), Arg(y, 199)]);
      CapText(texts, x, 319);
      CapText(texts, y, 199);
      args := AppendArg(texts[x], args);
      args := AppendArg(texts[y], args);
      assert args == [Text(h), texts[x], texts[y]];
      Enqueue(h, Command(action, args));
    }

    method AppendDeclarePen(h: nat, texts: array<string>, index: nat, r: nat, g: nat, b: nat)
      requires Valid() && h < HDCS && |hdcs[h].queue| < QUEUESIZE && Refers(DeclarePen(index, r, g, b), texts.Length)
      modifies `hdcs, texts
      ensures Queued(h, DeclarePen(index, r, g, b), old(texts[..]), texts[..], old(hdcs))
    {
      hide CappedText, Text, Overwritten;
      RefersTo(DeclarePen(index, r, g, b), texts.Length);
      var args := StartArgs(h);
      Overwrites4(texts[..], Args(DeclarePen(index, r, g, b)));
      CapText(texts, index, 50);
      CapText(texts, r, 63);
      CapText(texts, g, 63);
      CapText(texts, b, 63);
      args := AppendArg(texts[index], args);
      args := AppendArg(texts[r], args);
      args := AppendArg(texts[g], args);
      args := AppendArg(texts[b], args);
      assert args == Encode(h, DeclarePen(index, r, g, b), texts[..]).args;
      Enqueue(h, Command(DeclarePenFunc, args));
    }

    method AppendGetPen(h: nat, texts: array<string>, index: nat)
      requires Valid() && h < HDCS && |hdcs[h].queue| < QUEUESIZE && Refers(SelectPen(index), texts.Length)
      modifies `hdcs, texts
      ensures Queued(h, SelectPen(index), old(texts[..]), texts[..], old(hdcs))
    {
      hide CappedText, Text;
      RefersTo(SelectPen(index), texts.Length);
      var args := StartArgs(h);
      OverwrittenOne(texts[..], Arg(index, 50));
      assert Args(SelectPen(index)) == [Arg(index, 50)];
      CapText(texts, index, 50);
      args := AppendArg(texts[index], args);
      assert args == Encode(h, SelectPen(index), texts[..]).args;
      Enqueue(h, Command(GetPenFunc, args));
    }

    method AppendDrawRect(h: nat, texts: array<string>, topY: nat, botY: nat, topX: nat, botX: nat)
      requires Valid() && h < HDCS && |hdcs[h].queue| < QUEUESIZE && Refers(FillRect(topY, botY, topX, botX), texts.Length)
      modifies `hdcs, texts
      ensures Queued(h, FillRect(topY, botY, topX, botX), old(texts[..]), texts[..], old(hdcs))
    {
      hide CappedText, Text, Overwritten;
      RefersTo(FillRect(topY, botY, topX, botX), texts.Length);
      var args := StartArgs(h);
      Overwrites4(texts[..], Args(FillRect(topY, botY, topX, botX)));
      CapText(texts, topY, 199);
      CapText(texts, botY, 199);
      CapText(texts, topX, 319);
      CapText(texts, botX, 319);
      args := AppendArg(texts[topY], args);
      args := AppendArg(texts[botX], args);
      args := AppendArg(texts[botY], args);
      args := AppendArg(texts[topX], args);
      assert args == Encode(h, FillRect(topY, botY, topX, botX), texts[..]).args;
      Enqueue(h, Command(DrawRect, args));
    }

    /** A request was queued: its texts are capped in place, and then stored. */
    ghost predicate Queued(h: nat, req: Drawing<nat>, texts: seq<string>, texts': seq<string>, was: seq<Hdc>)
      reads this
      requires |was| == HDCS && h < HDCS && Refers(req, |texts|)
    {
      && texts' == Overwritten(texts, Args(req))
      && hdcs == was[h := was[h].(queue := was[h].queue + [Encode(h, req, texts')])]
    }

    /** sys_writeQueue for a request: operation codes 0 to 5. */
    method WriteQueue(h: nat, texts: array<string>, req: Drawing<nat>)
      requires Valid() && h < HDCS && |hdcs[h].queue| < QUEUESIZE && Refers(req, texts.Length)
      modifies `hdcs, texts
      ensures Queued(h, req, old(texts[..]), texts[..], old(hdcs))
    {
      RefersTo(req, texts.Length);
      match req
      case Pixel(x, y) => AppendPoint(h, PixelSetterFuncQueue, texts, x, y);
      case LineTo(x, y) => AppendPoint(h, LineDrawFunc, texts, x, y);
      case MoveTo(x, y) => AppendPoint(h, MovePosFunc, texts, x, y);
      case DeclarePen(i, r, g, b) => AppendDeclarePen(h, texts, i, r, g, b);
      case SelectPen(i) => AppendGetPen(h, texts, i);
      case FillRect(top, bottom, right, left) => AppendDrawRect(h, texts, top, bottom, right, left);
    }

    // -- replaying

    method QueuedAction(c: Command)
      requires Valid() && WellFormed(c) && 0 <= Value(c.args[0]) < HDCS
      modifies this, pixMem
      ensures Became(old(hdcs), Value(c.args[0]), Execute(old(View(Value(c.args[0]))), c))
      ensures DrawnBy(old(View(Value(c.args[0]))), c, View(Value(c.args[0])))
    {
      hide DrawnBy;
      ExecuteDraws(View(Value(c.args[0])), c);
      var h := ParseInt(c.args[0]);
      var a1 := ParseInt(c.args[1]);
      match c.action
      case GetPenFunc =>
        hdcs := hdcs[h := hdcs[h].(penIndex := a1)];
      case PixelSetterFuncQueue =>
        var a2 := ParseInt(c.args[2]);
        PaintOne(pixMem[..], Point(a1, a2), hdcs[h].penIndex % 0x100);
        PixelSetterFunc(h, a1, a2);
      case LineDrawFunc =>
        var a2 := ParseInt(c.args[2]);
        LineDraw(hdcs[h].x, hdcs[h].y, a1, a2, h);
        MovePos(h, a1, a2);
      case MovePosFunc =>
        var a2 := ParseInt(c.args[2]);
        hdcs := hdcs[h := hdcs[h].(x := a1, y := a2)];
      case DeclarePenFunc =>
        var r := ParseInt(c.args[2]);
        var g := ParseInt(c.args[3]);
        var b := ParseInt(c.args[4]);
        palette := palette[a1 % 0x100 := Colour(r % 0x100, g % 0x100, b % 0x100)];
      case DrawRect =>
        var left := ParseInt(c.args[2]);
        var bottom := ParseInt(c.args[3]);
        var right := ParseInt(c.args[4]);
        FillRows(a1, left, bottom, right, h);
    }

    /** Every command of the queue is one that writeQueue stored for this context. */
    ghost predicate QueueOk(h: nat)
      reads this
      requires |hdcs| == HDCS && h < HDCS
    {
      && |hdcs[h].queue| <= QUEUESIZE
      && forall i :: 0 <= i < |hdcs[h].queue| ==>
           WellFormed(hdcs[h].queue[i]) && hdcs[h].queue[i].args[0] == Text(h)
    }

    method ReplayQueue(h: nat)
      requires Valid() && h < HDCS && QueueOk(h)
      modifies this, pixMem
      ensures Became(old(hdcs), h, ExecuteAll(old(View(h)), old(hdcs[h].queue)))
    {
      ghost var v, cs := View(h), hdcs[h].queue;
      ValueOfDecimal(h);
      var i := 0;
      while i < |hdcs[h].queue|
        invariant Valid() && 0 <= i <= |cs| && hdcs[h].queue == cs
        invariant Became(old(hdcs), h, ExecuteAll(v, cs[..i]))
      {
        assert cs[..i + 1][..i] == cs[..i];
        QueuedAction(hdcs[h].queue[i]);
        i := i + 1;
      }
      assert cs[..|cs|] == cs;
    }

    /** sys_endpaint: replay the queue if asked to, then give the context back. */
    method EndPaint(h: nat, executeQueue: bool) returns (ret: int)
      requires Valid() && h < HDCS && QueueOk(h)
      modifies this, pixMem
      ensures Valid()
      ensures var v := if executeQueue then ExecuteAll(old(View(h)), old(hdcs[h].queue)) else old(View(h));
              && pixMem[..] == v.pix && palette == v.palette
              && hdcs == old(hdcs)[h := if old(hdcs[h].init) then Hdc(false, 0, 0, 15, [])
                                        else old(hdcs[h]).(x := v.x, y := v.y, penIndex := v.pen)]
      ensures ret == if old(hdcs[h].init) then 0 else -1
    {
      if executeQueue {
        ReplayQueue(h);
      }
      if hdcs[h].init {
        hdcs := hdcs[h := Hdc(false, 0, 0, 15, [])];
        return 0;
      }
      return -1;
    }

    /** sys_beginpaint: the first free context, reset; -1 if there is none. */
    method BeginPaint() returns (ret: int)
      requires Valid()
      modifies `hdcs
      ensures Valid()
      ensures ret == -1 ==> hdcs == old(hdcs) && forall h :: 0 <= h < HDCS ==> hdcs[h].init
      ensures ret != -1 ==>
        && 0 <= ret < HDCS && !old(hdcs)[ret].init && (forall h :: 0 <= h < ret ==> old(hdcs)[h].init)
        && hdcs == old(hdcs)[ret := Hdc(true, 0, 0, 15, [])]
    {
      var index := 0;
      while index < HDCS
        invariant 0 <= index <= HDCS && hdcs == old(hdcs)
        invariant forall h :: 0 <= h < index ==> hdcs[h].init
      {
        if !hdcs[index].init {
          hdcs := hdcs[index := Hdc(true, 0, 0, 15, [])];
          return index;
        }
        index := index + 1;
      }
      return -1;
    }

    /** Queue a list of requests and end the painting: the screen shows what the direct calls would have drawn. */
    method PaintThroughQueue(h: nat, texts: array<string>, reqs: seq<Drawing<nat>>)
      requires Valid() && h < HDCS && hdcs[h].queue == [] && |reqs| <= QUEUESIZE
      requires AllRefer(reqs, texts.Length) && AllFaithful(texts[..], reqs)
      modifies this, pixMem, texts
      ensures pixMem[..] == PerformAll(old(View(h)), MeaningAll(old(texts[..]), reqs)).pix
      ensures palette == PerformAll(old(View(h)), MeaningAll(old(texts[..]), reqs)).palette
    {
      hide AllFaithful, Args, Overwritten;
      ghost var v, t := View(h), texts[..];
      QueueAll(h, texts, reqs);
      ReplayMatchesDirect(v, h, t, reqs);
      var ret := EndPaint(h, true);
    }

    method QueueAll(h: nat, texts: array<string>, reqs: seq<Drawing<nat>>)
      requires Valid() && h < HDCS && hdcs[h].queue == [] && |reqs| <= QUEUESIZE && AllRefer(reqs, texts.Length)
      modifies `hdcs, texts
      ensures InTexts(ArgsAll(reqs), texts.Length) && texts[..] == Overwritten(old(texts[..]), ArgsAll(reqs))
      ensures hdcs == old(hdcs)[h := old(hdcs)[h].(queue := EncodeAll(h, old(texts[..]), reqs))]
    {
      hide Encode, Overwritten, Args, InTexts, EncodeAll, ArgsAll, Text, WellFormed;
      ghost var was, t := hdcs, texts[..];
      QueuedNone(h, t, reqs);
      var i := 0;
      while i < |reqs|
        invariant Valid() && 0 <= i <= |reqs|
        invariant InTexts(ArgsAll(reqs[..i]), |t|) && texts[..] == Overwritten(t, ArgsAll(reqs[..i]))
        invariant hdcs == was[h := was[h].(queue := EncodeAll(h, t, reqs[..i]))]
      {
        assert Refers(reqs[i], texts.Length);
        WriteQueue(h, texts, reqs[i]);
        QueuedNext(h, t, reqs, i);
        i := i + 1;
      }
      assert reqs[..|reqs|] == reqs;
    }
  }

  lemma QueuedNone(h: nat, texts: seq<string>, reqs: seq<Drawing<nat>>)
    requires AllRefer(reqs, |texts|)
    ensures InTexts(ArgsAll(reqs[..0]), |texts|) && Overwritten(texts, ArgsAll(reqs[..0])) == texts
    ensures EncodeAll(h, texts, reqs[..0]) == []
  {
  }

  /** The i-th request continues where the others left the buffers and the queue. */
  lemma QueuedNext(h: nat, texts: seq<string>, reqs: seq<Drawing<nat>>, i: nat)
    requires AllRefer(reqs, |texts|) && i < |reqs| && InTexts(ArgsAll(reqs[..i]), |texts|)
    ensures InTexts(ArgsAll(reqs[..i + 1]), |texts|)
    ensures Overwritten(Overwritten(texts, ArgsAll(reqs[..i])), Args(reqs[i])) == Overwritten(texts, ArgsAll(reqs[..i + 1]))
    ensures EncodeAll(h, texts, reqs[..i + 1])
         == EncodeAll(h, texts, reqs[..i]) + [Encode(h, reqs[i], Overwritten(texts, ArgsAll(reqs[..i + 1])))]
  {
    ArgsInTexts(reqs[..i + 1], |texts|);
    assert reqs[..i + 1][..i] == reqs[..i];
    OverwrittenConcat(texts, ArgsAll(reqs[..i]), Args(reqs[i]));
  }

  lemma {:induction false} OverwrittenConcat(texts: seq<string>, a: seq<Arg>, b: seq<Arg>)
    requires InTexts(a, |texts|) && InTexts(b, |texts|)
    ensures InTexts(a + b, |texts|) && Overwritten(texts, a + b) == Overwritten(Overwritten(texts, a), b)
    decreases |b|
  {
    if b == [] {
      assert a + b == a;
    } else {
      var n := |b| - 1;
      OverwrittenConcat(texts, a, b[..n]);
      assert (a + b)[..|a + b| - 1] == a + b[..n];
    }
  }

  lemma OverwrittenOne(texts: seq<string>, a: Arg)
    requires InTexts([a], |texts|)
    ensures a.buffer < |texts| && Overwritten(texts, [a]) == texts[a.buffer := CappedText(texts[a.buffer], a.capacity)]
  {
    hide CappedText;
    assert [a][0] == a && [a][..0] == [];
  }

  lemma Overwrites2(texts: seq<string>, args: seq<Arg>)
    requires |args| == 2 && InTexts(args, |texts|)
    ensures var t := texts[args[0].buffer := CappedText(texts[args[0].buffer], args[0].capacity)];
            Overwritten(texts, args) == t[args[1].buffer := CappedText(t[args[1].buffer], args[1].capacity)]
  {
    hide CappedText, Overwritten;
    OverwrittenOne(texts, args[0]);
    OverwrittenOne(Overwritten(texts, [args[0]]), args[1]);
    OverwrittenConcat(texts, [args[0]], [args[1]]);
    assert args == [args[0]] + [args[1]];
  }

  lemma Overwrites4(texts: seq<string>, args: seq<Arg>)
    requires |args| == 4 && InTexts(args, |texts|)
    ensures var t := texts[args[0].buffer := CappedText(texts[args[0].buffer], args[0].capacity)];
            var u := t[args[1].buffer := CappedText(t[args[1].buffer], args[1].capacity)];
            var w := u[args[2].buffer := CappedText(u[args[2].buffer], args[2].capacity)];
            Overwritten(texts, args) == w[args[3].buffer := CappedText(w[args[3].buffer], args[3].capacity)]
  {
    hide CappedText, Overwritten;
    Overwrites2(texts, args[..2]);
    Overwrites2(Overwritten(texts, args[..2]), args[2..]);
    OverwrittenConcat(texts, args[..2], args[2..]);
    assert args == args[..2] + args[2..];
  }

  lemma FirstStep(rise: nat, run: nat)
    ensures Nearest(rise, run, 0) == 0
  {
    if run > 0 {
      NearestIff(rise, run, 0, 0);
    }
  }

  /** One turn of a plotting loop: what the error term becomes and where the next pixel lies. */
  lemma PlotStep(rise: nat, run: nat, k: nat, d: int, from: int)
    requires rise <= run && run > 0
    ensures var j := Nearest(rise, run, k);
            var D := 2 * rise - run + 2 * (rise * k) - 2 * (run * j);
            var j' := if D >= 0 then j + 1 else j;
            && Nearest(rise, run, k + 1) == j'
            && 2 * rise - run + 2 * (rise * (k + 1)) - 2 * (run * j') == (if D >= 0 then D - 2 * run else D) + 2 * rise
            && from + d * j' == from + d * j + if D >= 0 then d else 0
  {
    NearestStep(rise, run, k);
    var j := Nearest(rise, run, k);
    assert rise * (k + 1) == rise * k + rise && run * (j + 1) == run * j + run && d * (j + 1) == d * j + d;
  }
}
