/**
 Window geometry normalization (window_geometry.rs) over the checked rectangles of the
 protocol (geometry.rs, window.rs, window_control.rs).

 Machine integers are subset types, so every intermediate value is proved to fit the width
 the source computes it in.
 */
module WindowGeometry {
  import opened Wrappers

  const I32_MAX := 0x7FFF_FFFF
  const U32_MAX := 0xFFFF_FFFF
  const MAX_WINDOW_DIMENSION := 65535

  type i32 = v: int | -0x8000_0000 <= v <= 0x7FFF_FFFF
  type u32 = v: int | 0 <= v <= 0xFFFF_FFFF
  type i64 = v: int | -0x8000_0000_0000_0000 <= v <= 0x7FFF_FFFF_FFFF_FFFF
  type u64 = v: int | 0 <= v <= 0xFFFF_FFFF_FFFF_FFFF

  datatype Space = RootPhysical | WindowClient | WindowFrame | AtspiScreen

  datatype Point = Point(x: i32, y: i32)

  datatype Rect = Rect(x: i32, y: i32, width: u32, height: u32)
  {
    /** A non-empty rectangle whose inclusive end coordinates fit i32. */
    predicate Valid() {
      && width != 0 && height != 0
      && x + width - 1 <= I32_MAX && y + height - 1 <= I32_MAX
    }
  }

  datatype WindowRect = WindowRect(space: Space, rect: Rect)
  {
    predicate Valid() {
      rect.Valid() && rect.width <= MAX_WINDOW_DIMENSION && rect.height <= MAX_WINDOW_DIMENSION
    }
  }

  datatype Extents = Extents(left: u32, right: u32, top: u32, bottom: u32)
  {
    predicate Valid() {
      && left <= MAX_WINDOW_DIMENSION && right <= MAX_WINDOW_DIMENSION
      && top <= MAX_WINDOW_DIMENSION && bottom <= MAX_WINDOW_DIMENSION
    }
  }

  datatype Window = Window(
    client: WindowRect, frame: Option<WindowRect>, content: WindowRect, extents: Option<Extents>)
  {
    predicate Valid() {
      && client.Valid() && content.Valid() && (frame.Some? ==> frame.value.Valid())
      && client.space == RootPhysical && content.space == RootPhysical
      && (frame.Some? ==> frame.value.space == RootPhysical)
      && (extents.Some? ==> extents.value.Valid())
    }
  }

  /** Partial desired geometry; omitted fields keep the current value. */
  datatype Request = Request(x: Option<i32>, y: Option<i32>, width: Option<u32>, height: Option<u32>)
  {
    predicate Valid() {
      && !(x.None? && y.None? && width.None? && height.None?)
      && (width.Some? ==> 0 < width.value <= MAX_WINDOW_DIMENSION)
      && (height.Some? ==> 0 < height.value <= MAX_WINDOW_DIMENSION)
    }
  }

  datatype Target = Client | Frame

  datatype Policy = RequireInsideRoot | ClampToRoot | AllowOffscreen

  datatype Error =
    | InvalidGeometry
    | FrameGeometryUnavailable
    | InconsistentFrameGeometry
    | FrameTooSmall
    | OutsideRootBounds
    | ArithmeticOverflow
    | UnsupportedCoordinateSpace

  // ------------------------------------------------------------ checked arithmetic

  function I32From(value: i64): Result<i32, Error> {
    if -0x8000_0000 <= value <= I32_MAX then Success(value) else Failure(ArithmeticOverflow)
  }

  function U32From(value: u64): Result<u32, Error> {
    if value <= U32_MAX then Success(value) else Failure(ArithmeticOverflow)
  }

  function MakeRect(x: i32, y: i32, width: u32, height: u32): Result<WindowRect, Error> {
    if !Rect(x, y, width, height).Valid() then Failure(ArithmeticOverflow)
    else if !WindowRect(RootPhysical, Rect(x, y, width, height)).Valid() then Failure(InvalidGeometry)
    else Success(WindowRect(RootPhysical, Rect(x, y, width, height)))
  }

  function ExclusiveEnd(origin: i32, extent: u32): i64 {
    origin + extent
  }

  predicate Sized(r: WindowRect) {
    r.rect.width != 0 && r.rect.height != 0
  }

  function Min(a: int, b: int): int {
    if a < b then a else b
  }

  /** `i64::clamp`. */
  function Clamp(value: i64, low: i64, high: i64): i64
    requires low <= high
  {
    if value < low then low else if value > high then high else value
  }

  // ------------------------------------------------------------ frame and client

  function DeriveFrame(client: WindowRect, e: Extents): Result<WindowRect, Error> {
    if !Sized(client) then Failure(InvalidGeometry)
    else
      var x: i64 := client.rect.x - e.left;
      var y: i64 := client.rect.y - e.top;
      var width: u64 := client.rect.width + e.left + e.right;
      var height: u64 := client.rect.height + e.top + e.bottom;
      if I32From(x).Failure? || I32From(y).Failure? || U32From(width).Failure? || U32From(height).Failure?
      then Failure(ArithmeticOverflow)
      else MakeRect(x, y, width, height)
  }

  function FrameToClient(frame: WindowRect, e: Extents): Result<WindowRect, Error> {
    if !Sized(frame) then Failure(InvalidGeometry)
    else if e.left + e.right > U32_MAX || e.top + e.bottom > U32_MAX then Failure(ArithmeticOverflow)
    else
      var horizontal: u32 := e.left + e.right;
      var vertical: u32 := e.top + e.bottom;
      if frame.rect.width <= horizontal || frame.rect.height <= vertical then Failure(FrameTooSmall)
      else
        var x: i64 := frame.rect.x + e.left;
        var y: i64 := frame.rect.y + e.top;
        if I32From(x).Failure? || I32From(y).Failure? then Failure(ArithmeticOverflow)
        else MakeRect(x, y, frame.rect.width - horizontal, frame.rect.height - vertical)
  }

  // ------------------------------------------------------------ bounds

  function ContainsRect(outer: WindowRect, inner: WindowRect): Result<bool, Error> {
    if !Sized(outer) || !Sized(inner) then Failure(InvalidGeometry)
    else Success(
      && inner.rect.x >= outer.rect.x && inner.rect.y >= outer.rect.y
      && ExclusiveEnd(inner.rect.x, inner.rect.width) <= ExclusiveEnd(outer.rect.x, outer.rect.width)
      && ExclusiveEnd(inner.rect.y, inner.rect.height) <= ExclusiveEnd(outer.rect.y, outer.rect.height))
  }

  function ClampRect(root: WindowRect, candidate: WindowRect): Result<WindowRect, Error> {
    if !Sized(root) || !Sized(candidate) then Failure(InvalidGeometry)
    else
      var width := Min(candidate.rect.width, root.rect.width);
      var height := Min(candidate.rect.height, root.rect.height);
      var maxX: i64 := root.rect.x + (root.rect.width - width);
      var maxY: i64 := root.rect.y + (root.rect.height - height);
      var x := Clamp(candidate.rect.x, root.rect.x, maxX);
      var y := Clamp(candidate.rect.y, root.rect.y, maxY);
      if I32From(x).Failure? || I32From(y).Failure? then Failure(ArithmeticOverflow)
      else MakeRect(x, y, width, height)
  }

  function ApplyBounds(candidate: WindowRect, root: WindowRect, policy: Policy): Result<WindowRect, Error> {
    match policy
    case AllowOffscreen => Success(candidate)
    case RequireInsideRoot =>
      var inside := ContainsRect(root, candidate);
      if inside.Failure? then Failure(inside.error)
      else if inside.value then Success(candidate) else Failure(OutsideRootBounds)
    case ClampToRoot => ClampRect(root, candidate)
  }

  function ContainsPoint(root: WindowRect, p: Point): Result<bool, Error> {
    if !Sized(root) then Failure(InvalidGeometry)
    else Success(
      && p.x >= root.rect.x && p.y >= root.rect.y
      && p.x < ExclusiveEnd(root.rect.x, root.rect.width)
      && p.y < ExclusiveEnd(root.rect.y, root.rect.height))
  }

  function ClampPoint(root: WindowRect, p: Point): Result<Point, Error> {
    if !Sized(root) then Failure(InvalidGeometry)
    else
      var x := Clamp(p.x, root.rect.x, ExclusiveEnd(root.rect.x, root.rect.width) - 1);
      var y := Clamp(p.y, root.rect.y, ExclusiveEnd(root.rect.y, root.rect.height) - 1);
      if I32From(x).Failure? || I32From(y).Failure? then Failure(ArithmeticOverflow)
      else Success(Point(x, y))
  }

  // ------------------------------------------------------------ requests

  function Or<T>(field: Option<T>, current: T): T {
    if field.Some? then field.value else current
  }

  function ApplyPartial(current: WindowRect, desired: Request): Result<WindowRect, Error> {
    if !Sized(current) then Failure(InvalidGeometry)
    else MakeRect(Or(desired.x, current.rect.x), Or(desired.y, current.rect.y),
                  Or(desired.width, current.rect.width), Or(desired.height, current.rect.height))
  }

  function Changed<T(==)>(field: Option<T>, current: T, effective: T): Option<T> {
    if field.Some? || current != effective then Some(effective) else None
  }

  function ChangedClientFields(current: WindowRect, effective: WindowRect, desired: Request)
    : Result<Request, Error>
  {
    if !Sized(current) || !Sized(effective) then Failure(InvalidGeometry)
    else Success(Request(
      Changed(desired.x, current.rect.x, effective.rect.x),
      Changed(desired.y, current.rect.y, effective.rect.y),
      Changed(desired.width, current.rect.width, effective.rect.width),
      Changed(desired.height, current.rect.height, effective.rect.height)))
  }

  datatype Resolved = Resolved(
    effective: WindowRect, clientRect: WindowRect, clientRequest: Request, constrained: bool)

  datatype ResolvedPoint = ResolvedPoint(root: Point, constrained: bool)

  datatype Context = Context(root: WindowRect, window: Window)
  {
    /** What `WindowGeometryContext::new` has checked. */
    predicate Valid() {
      && root.Valid() && window.Valid() && root.space == RootPhysical
      && (window.frame.Some? && window.extents.Some? ==>
            DeriveFrame(window.client, window.extents.value) == Success(window.frame.value))
    }

    function Current(target: Target): Result<WindowRect, Error> {
      match target
      case Client => Success(window.client)
      case Frame =>
        if window.extents.None? || window.frame.None? then Failure(FrameGeometryUnavailable)
        else Success(window.frame.value)
    }

    function ResolveMoveResize(target: Target, desired: Request, policy: Policy): Result<Resolved, Error> {
      if !desired.Valid() then Failure(InvalidGeometry)
      else
        var current := Current(target);
        if current.Failure? then Failure(current.error)
        else
          var candidate := ApplyPartial(current.value, desired);
          if candidate.Failure? then Failure(candidate.error)
          else
            var effective := ApplyBounds(candidate.value, root, policy);
            if effective.Failure? then Failure(effective.error)
            else
              var client := if target.Client? then effective
                            else if window.extents.None? then Failure(FrameGeometryUnavailable)
                            else FrameToClient(effective.value, window.extents.value);
              if client.Failure? then Failure(client.error)
              else
                var request := ChangedClientFields(window.client, client.value, desired);
                if request.Failure? then Failure(request.error)
                else Success(Resolved(effective.value, client.value, request.value,
                                      candidate.value != effective.value))
    }

    function ResolveLocalPoint(space: Space, p: Point, policy: Policy): Result<ResolvedPoint, Error> {
      if space == RootPhysical || space == AtspiScreen then Failure(UnsupportedCoordinateSpace)
      else if space == WindowFrame && window.frame.None? then Failure(FrameGeometryUnavailable)
      else
        var origin := if space == WindowFrame && window.frame.Some? then window.frame.value.rect else window.client.rect;
        var x: i64 := origin.x + p.x;
        var y: i64 := origin.y + p.y;
        if I32From(x).Failure? || I32From(y).Failure? then Failure(ArithmeticOverflow)
        else
          var translated := Point(x, y);
          match policy
          case AllowOffscreen => Success(ResolvedPoint(translated, false))
          case RequireInsideRoot =>
            var inside := ContainsPoint(root, translated);
            if inside.Failure? then Failure(inside.error)
            else if inside.value then Success(ResolvedPoint(translated, false))
            else Failure(OutsideRootBounds)
          case ClampToRoot =>
            var clamped := ClampPoint(root, translated);
            if clamped.Failure? then Failure(clamped.error)
            else Success(ResolvedPoint(clamped.value, clamped.value != translated))
    }
  }

  /** `WindowGeometryContext::new`. */
  function NewContext(root: WindowRect, window: Window): Result<Context, Error> {
    if !root.Valid() || !window.Valid() || root.space != RootPhysical then Failure(InvalidGeometry)
    else if window.frame.Some? && window.extents.Some? then
      var derived := DeriveFrame(window.client, window.extents.value);
      if derived.Failure? then Failure(derived.error)
      else if derived.value != window.frame.value then Failure(InconsistentFrameGeometry)
      else Success(Context(root, window))
    else Success(Context(root, window))
  }

  lemma NewContextValid(root: WindowRect, window: Window)
    ensures NewContext(root, window).Success? <==> Context(root, window).Valid()
    ensures NewContext(root, window).Success? ==> NewContext(root, window).value == Context(root, window)
  {
  }

  // ------------------------------------------------------------ frame and client are inverse

  /**
   Taking the extents off a root-physical frame and putting them back, or the other way
   round, is the identity wherever the first of the two is defined.
   */
  lemma FrameClientInverse(r: WindowRect, e: Extents)
    requires r.Valid() && r.space == RootPhysical
    ensures FrameToClient(r, e).Success? ==> DeriveFrame(FrameToClient(r, e).value, e) == Success(r)
    ensures DeriveFrame(r, e).Success? ==> FrameToClient(DeriveFrame(r, e).value, e) == Success(r)
  {
  }

  // ------------------------------------------------------------ clamping

  predicate Inside(root: WindowRect, r: WindowRect) {
    && root.rect.x <= r.rect.x && r.rect.x + r.rect.width <= root.rect.x + root.rect.width
    && root.rect.y <= r.rect.y && r.rect.y + r.rect.height <= root.rect.y + root.rect.height
  }

  function Distance(a: int, b: int): nat {
    if a < b then b - a else a - b
  }

  /**
   Clamping a rectangle never fails, lands inside the root, keeps as much of the size as
   fits, is on each axis the nearest placement of that size, and leaves exactly those
   rectangles alone that lie inside the root.
   */
  lemma ClampRectIsNearest(root: WindowRect, r: WindowRect)
    requires root.Valid() && r.Valid() && r.space == RootPhysical
    ensures ClampRect(root, r).Success?
    ensures var c := ClampRect(root, r).value;
      && c.Valid() && c.space == RootPhysical && Inside(root, c)
      && c.rect.width == Min(r.rect.width, root.rect.width)
      && c.rect.height == Min(r.rect.height, root.rect.height)
      && (forall o: WindowRect ::
            Inside(root, o) && o.rect.width == c.rect.width && o.rect.height == c.rect.height ==>
              && Distance(r.rect.x, c.rect.x) <= Distance(r.rect.x, o.rect.x)
              && Distance(r.rect.y, c.rect.y) <= Distance(r.rect.y, o.rect.y))
      && ClampRect(root, c) == Success(c)
      && (c == r <==> Inside(root, r))
    ensures ContainsRect(root, r) == Success(Inside(root, r))
  {
  }

  predicate InsidePoint(root: WindowRect, p: Point) {
    && root.rect.x <= p.x < root.rect.x + root.rect.width
    && root.rect.y <= p.y < root.rect.y + root.rect.height
  }

  /** The same for points. */
  lemma ClampPointIsNearest(root: WindowRect, p: Point)
    requires root.Valid()
    ensures ClampPoint(root, p).Success?
    ensures var c := ClampPoint(root, p).value;
      && InsidePoint(root, c)
      && (forall o: Point :: InsidePoint(root, o) ==>
            Distance(p.x, c.x) <= Distance(p.x, o.x) && Distance(p.y, c.y) <= Distance(p.y, o.y))
      && ClampPoint(root, c) == Success(c)
      && (c == p <==> InsidePoint(root, p))
    ensures ContainsPoint(root, p) == Success(InsidePoint(root, p))
  {
  }

  // ------------------------------------------------------------ resolving a request

  lemma EffectiveIsValid(root: WindowRect, candidate: WindowRect, policy: Policy)
    requires root.Valid() && candidate.Valid() && candidate.space == RootPhysical
    ensures var e := ApplyBounds(candidate, root, policy);
      e.Success? ==> e.value.Valid() && e.value.space == RootPhysical
  {
  }

  /** The minimal request carries one rectangle to the other and names only fields asked for or changed. */
  lemma ChangedFieldsSuffice(current: WindowRect, effective: WindowRect, desired: Request)
    requires current.Valid() && effective.Valid() && effective.space == RootPhysical && desired.Valid()
    ensures ChangedClientFields(current, effective, desired).Success?
    ensures var sent := ChangedClientFields(current, effective, desired).value;
      && sent.Valid()
      && ApplyPartial(current, sent) == Success(effective)
      && (sent.x.Some? <==> desired.x.Some? || effective.rect.x != current.rect.x)
      && (sent.y.Some? <==> desired.y.Some? || effective.rect.y != current.rect.y)
      && (sent.width.Some? <==> desired.width.Some? || effective.rect.width != current.rect.width)
      && (sent.height.Some? <==> desired.height.Some? || effective.rect.height != current.rect.height)
  {
  }

  /**
   Sending the minimal request to the current client rectangle produces exactly the client
   rectangle that was resolved; and that rectangle is the effective one, or for a frame
   request the one whose frame, with the live extents, is the effective one.
   */
  lemma ResolvedRequestReachesTarget(c: Context, target: Target, desired: Request, policy: Policy)
    requires c.Valid() && c.ResolveMoveResize(target, desired, policy).Success?
    ensures var r := c.ResolveMoveResize(target, desired, policy).value;
      && ApplyPartial(c.window.client, r.clientRequest) == Success(r.clientRect)
      && r.clientRequest.Valid()
      && (target.Client? ==> r.clientRect == r.effective)
      && (target.Frame? ==> c.window.extents.Some?
                            && DeriveFrame(r.clientRect, c.window.extents.value) == Success(r.effective))
  {
    var r := c.ResolveMoveResize(target, desired, policy).value;
    var candidate := ApplyPartial(c.Current(target).value, desired).value;
    EffectiveIsValid(c.root, candidate, policy);
    if target.Frame? {
      FrameClientInverse(r.effective, c.window.extents.value);
    }
    assert r.clientRect.Valid() && r.clientRect.space == RootPhysical;
    ChangedFieldsSuffice(c.window.client, r.clientRect, desired);
  }

  /**
   The constraint flag is raised exactly when the policy is to clamp and demanding
   containment instead would have been refused; otherwise what was asked for is what is
   effective. Under either containing policy the effective rectangle lies inside the root.
   */
  lemma ConstrainedIffOutside(c: Context, target: Target, desired: Request, policy: Policy)
    requires c.Valid() && c.ResolveMoveResize(target, desired, policy).Success?
    ensures var r := c.ResolveMoveResize(target, desired, policy).value;
      && (r.constrained <==>
            policy.ClampToRoot?
            && c.ResolveMoveResize(target, desired, RequireInsideRoot) == Failure(OutsideRootBounds))
      && (!policy.AllowOffscreen? ==> Inside(c.root, r.effective))
      && (!r.constrained ==> ApplyPartial(c.Current(target).value, desired) == Success(r.effective))
      && (policy.ClampToRoot? ==> NearestToWish(r.effective, WishOf(c.Current(target).value, desired), c.root))
  {
    ResolvesIff(c, target, desired, policy);
    hide NearestToWish, WishOf;
    ClampRectIsNearest(c.root, ApplyPartial(c.Current(target).value, desired).value);
  }

  // ------------------------------------------------------------ the whole outcome

  function Chosen(field: Option<int>, current: int): int {
    match field
    case Some(v) => v
    case None => current
  }

  /** What is asked for: the requested fields, and the current value of the others. */
  datatype Wish = Wish(x: int, y: int, width: int, height: int)

  function WishOf(current: WindowRect, desired: Request): Wish {
    Wish(Chosen(desired.x, current.rect.x), Chosen(desired.y, current.rect.y),
         Chosen(desired.width, current.rect.width), Chosen(desired.height, current.rect.height))
  }

  predicate IsWish(r: WindowRect, w: Wish) {
    r.rect.x == w.x && r.rect.y == w.y && r.rect.width == w.width && r.rect.height == w.height
  }

  predicate WishInside(root: WindowRect, w: Wish) {
    && root.rect.x <= w.x && w.x + w.width <= root.rect.x + root.rect.width
    && root.rect.y <= w.y && w.y + w.height <= root.rect.y + root.rect.height
  }

  /** `at` is where a stretch of this length lies nearest to `wanted` among all places from `low` to `high`. */
  ghost predicate Nearest(at: int, wanted: int, length: int, low: int, high: int) {
    && low <= at && at + length <= high
    && forall o :: low <= o && o + length <= high ==> Distance(wanted, at) <= Distance(wanted, o)
  }

  /** The largest part of the wished size that fits the root, as near to the wished origin as it can be. */
  ghost predicate NearestToWish(r: WindowRect, w: Wish, root: WindowRect) {
    && r.rect.width == (if w.width <= root.rect.width then w.width else root.rect.width)
    && r.rect.height == (if w.height <= root.rect.height then w.height else root.rect.height)
    && Nearest(r.rect.x, w.x, r.rect.width, root.rect.x, root.rect.x + root.rect.width)
    && Nearest(r.rect.y, w.y, r.rect.height, root.rect.y, root.rect.y + root.rect.height)
  }

  /** The effective rectangle is the wish, or under clamping the nearest to it inside the root. */
  ghost predicate EffectiveFor(r: Resolved, w: Wish, root: WindowRect, policy: Policy) {
    && r.effective.space == RootPhysical
    && (if policy == ClampToRoot then NearestToWish(r.effective, w, root) else IsWish(r.effective, w))
    && (r.constrained <==> !IsWish(r.effective, w))
  }

  /** The client rectangle is the effective one, less the extents on each side for a frame. */
  predicate ClientFor(r: Resolved, target: Target, extents: Option<Extents>) {
    && r.clientRect.space == RootPhysical
    && match target
       case Client => r.clientRect == r.effective
       case Frame =>
         && extents.Some?
         && r.clientRect.rect.x == r.effective.rect.x + extents.value.left
         && r.clientRect.rect.y == r.effective.rect.y + extents.value.top
         && r.clientRect.rect.width == r.effective.rect.width - extents.value.left - extents.value.right
         && r.clientRect.rect.height == r.effective.rect.height - extents.value.top - extents.value.bottom
  }

  /** The request names a field exactly when it was asked for or has to change, with its new value. */
  predicate Sends(field: Option<int>, asked: bool, current: int, after: int) {
    field == if asked || current != after then Some(after) else None
  }

  predicate RequestFor(r: Resolved, client: WindowRect, desired: Request) {
    && Sends(r.clientRequest.x, desired.x.Some?, client.rect.x, r.clientRect.rect.x)
    && Sends(r.clientRequest.y, desired.y.Some?, client.rect.y, r.clientRect.rect.y)
    && Sends(r.clientRequest.width, desired.width.Some?, client.rect.width, r.clientRect.rect.width)
    && Sends(r.clientRequest.height, desired.height.Some?, client.rect.height, r.clientRect.rect.height)
  }

  predicate Ask(desired: Request) {
    && (desired.x.Some? || desired.y.Some? || desired.width.Some? || desired.height.Some?)
    && (desired.width.Some? ==> 1 <= desired.width.value <= 65535)
    && (desired.height.Some? ==> 1 <= desired.height.value <= 65535)
  }

  /** How much of a wished size is kept. */
  function Kept(wished: int, available: int, policy: Policy): int {
    if policy == ClampToRoot && wished > available then available else wished
  }

  /** A frame of the size that is kept has room for a client inside these extents. */
  predicate RoomInside(w: Wish, root: WindowRect, policy: Policy, e: Extents) {
    && Kept(w.width, root.rect.width, policy) > e.left + e.right
    && Kept(w.height, root.rect.height, policy) > e.top + e.bottom
  }

  predicate InRange(w: Wish) {
    w.x + w.width - 1 <= 0x7FFF_FFFF && w.y + w.height - 1 <= 0x7FFF_FFFF
  }

  lemma CandidateIff(current: WindowRect, desired: Request)
    requires current.Valid() && Ask(desired)
    ensures var c := ApplyPartial(current, desired);
      if !InRange(WishOf(current, desired)) then c == Failure(ArithmeticOverflow)
      else c.Success? && c.value.Valid() && c.value.space == RootPhysical && IsWish(c.value, WishOf(current, desired))
  {
  }

  lemma BoundsIff(root: WindowRect, candidate: WindowRect, policy: Policy, w: Wish)
    requires root.Valid() && candidate.Valid() && candidate.space == RootPhysical && IsWish(candidate, w)
    ensures var e := ApplyBounds(candidate, root, policy);
      if policy == RequireInsideRoot && !WishInside(root, w) then e == Failure(OutsideRootBounds)
      else
        && e.Success? && e.value.Valid() && e.value.space == RootPhysical
        && (if policy == ClampToRoot then NearestToWish(e.value, w, root) else IsWish(e.value, w))
        && e.value.rect.width == Kept(w.width, root.rect.width, policy)
        && e.value.rect.height == Kept(w.height, root.rect.height, policy)
        && (candidate == e.value <==> IsWish(e.value, w))
  {
  }

  lemma ClientIff(effective: WindowRect, e: Extents, r: Resolved)
    requires effective.Valid() && effective.space == RootPhysical && e.Valid()
    ensures var client := FrameToClient(effective, e);
      if effective.rect.width <= e.left + e.right || effective.rect.height <= e.top + e.bottom
      then client == Failure(FrameTooSmall)
      else
        && client.Success? && client.value.Valid()
        && (r.effective == effective && r.clientRect == client.value ==> ClientFor(r, Frame, Some(e)))
  {
  }

  lemma AskIff(desired: Request)
    ensures Ask(desired) <==> desired.Valid()
  {
  }

  lemma CurrentIff(c: Context, target: Target)
    requires c.Valid()
    ensures var known := !(target == Frame && (c.window.frame.None? || c.window.extents.None?));
      && (known ==>
            var current := if target == Client then c.window.client else c.window.frame.value;
            c.Current(target) == Success(current) && current.Valid())
      && (!known ==> c.Current(target) == Failure(FrameGeometryUnavailable))
  {
    hide DeriveFrame;
  }

  lemma Unresolved(c: Context, target: Target, desired: Request, policy: Policy)
    requires !desired.Valid() || c.Current(target).Failure?
    ensures c.ResolveMoveResize(target, desired, policy)
         == Failure(if !desired.Valid() then InvalidGeometry else c.Current(target).error)
  {
    hide ApplyPartial, ApplyBounds, FrameToClient, ChangedClientFields;
  }

  lemma NoCandidate(c: Context, target: Target, desired: Request, policy: Policy, current: WindowRect)
    requires desired.Valid() && c.Current(target) == Success(current) && ApplyPartial(current, desired).Failure?
    ensures c.ResolveMoveResize(target, desired, policy) == Failure(ApplyPartial(current, desired).error)
  {
    hide ApplyPartial, ApplyBounds, FrameToClient, ChangedClientFields;
  }

  /** The last two stages of a resolution, from its candidate on. */
  lemma ResolutionFrom(c: Context, target: Target, desired: Request, policy: Policy, current: WindowRect)
    requires desired.Valid() && c.Current(target) == Success(current) && ApplyPartial(current, desired).Success?
    requires target == Frame ==> c.window.extents.Some?
    ensures var r := c.ResolveMoveResize(target, desired, policy);
      var candidate := ApplyPartial(current, desired).value;
      var effective := ApplyBounds(candidate, c.root, policy);
      if effective.Failure? then r == Failure(effective.error)
      else
        var client := if target == Client then effective else FrameToClient(effective.value, c.window.extents.value);
        if client.Failure? then r == Failure(client.error)
        else
          var request := ChangedClientFields(c.window.client, client.value, desired);
          if request.Failure? then r == Failure(request.error)
          else r == Success(Resolved(effective.value, client.value, request.value, candidate != effective.value))
  {
    hide ApplyPartial, ApplyBounds, FrameToClient, ChangedClientFields;
  }

  lemma RequestIff(r: Resolved, client: WindowRect, desired: Request)
    requires client.Valid() && r.clientRect.Valid()
    ensures var request := ChangedClientFields(client, r.clientRect, desired);
      request.Success? && (r.clientRequest == request.value ==> RequestFor(r, client, desired))
  {
  }

  lemma WishResolves(c: Context, target: Target, desired: Request, policy: Policy, current: WindowRect)
    requires c.Valid() && desired.Valid() && c.Current(target) == Success(current)
    requires target == Frame ==> c.window.extents.Some?
    requires var candidate := ApplyPartial(current, desired);
      candidate.Success? && candidate.value.Valid() && candidate.value.space == RootPhysical
      && IsWish(candidate.value, WishOf(current, desired))
    ensures var r := c.ResolveMoveResize(target, desired, policy);
      var w := WishOf(current, desired);
      if policy == RequireInsideRoot && !WishInside(c.root, w) then r == Failure(OutsideRootBounds)
      else if target == Frame && !RoomInside(w, c.root, policy, c.window.extents.value) then r == Failure(FrameTooSmall)
      else
        && r.Success?
        && EffectiveFor(r.value, w, c.root, policy)
        && ClientFor(r.value, target, c.window.extents)
        && RequestFor(r.value, c.window.client, desired)
  {
    hide ApplyPartial, ApplyBounds, FrameToClient, ChangedClientFields, NearestToWish, IsWish, WishOf, WishInside;
    hide RequestFor, DeriveFrame, c.ResolveMoveResize;
    var w := WishOf(current, desired);
    var candidate := ApplyPartial(current, desired).value;
    ResolutionFrom(c, target, desired, policy, current);
    BoundsIff(c.root, candidate, policy, w);
    var effective := ApplyBounds(candidate, c.root, policy);
    if effective.Success? {
      var r := c.ResolveMoveResize(target, desired, policy);
      var full := if r.Success? then r.value else Resolved(effective.value, effective.value, desired, false);
      if target == Frame {
        ClientIff(effective.value, c.window.extents.value, full);
      }
      if target == Client || FrameToClient(effective.value, c.window.extents.value).Success? {
        var client := if target == Client then effective.value
                      else FrameToClient(effective.value, c.window.extents.value).value;
        RequestIff(full.(clientRect := client), c.window.client, desired);
      }
    }
  }

  /**
   Exactly when a request resolves, to what, and otherwise why not: an empty or oversized request,
   a frame that is not known, a wish whose end leaves the coordinate range, a wish outside the root
   where containment is demanded, and a frame too small for its extents.
   */
  lemma ResolvesIff(c: Context, target: Target, desired: Request, policy: Policy)
    requires c.Valid()
    ensures var r := c.ResolveMoveResize(target, desired, policy);
      if !Ask(desired) then r == Failure(InvalidGeometry)
      else if target == Frame && (c.window.frame.None? || c.window.extents.None?) then
        r == Failure(FrameGeometryUnavailable)
      else
        var w := WishOf(if target == Client then c.window.client else c.window.frame.value, desired);
        if !InRange(w) then r == Failure(ArithmeticOverflow)
        else if policy == RequireInsideRoot && !WishInside(c.root, w) then r == Failure(OutsideRootBounds)
        else if target == Frame && !RoomInside(w, c.root, policy, c.window.extents.value) then r == Failure(FrameTooSmall)
        else
          && r.Success?
          && EffectiveFor(r.value, w, c.root, policy)
          && ClientFor(r.value, target, c.window.extents)
          && RequestFor(r.value, c.window.client, desired)
  {
    hide *;
    AskIff(desired);
    CurrentIff(c, target);
    if Ask(desired) && !(target == Frame && (c.window.frame.None? || c.window.extents.None?)) {
      var current := if target == Client then c.window.client else c.window.frame.value;
      CandidateIff(current, desired);
      if InRange(WishOf(current, desired)) {
        WishResolves(c, target, desired, policy, current);
      } else {
        NoCandidate(c, target, desired, policy, current);
      }
    } else {
      Unresolved(c, target, desired, policy);
    }
  }

  /** A later context in which the resolved geometry has taken effect. */
  predicate Reached(c: Context, later: Context, target: Target, r: Resolved) {
    && later.Valid()
    && later.root == c.root && later.window.extents == c.window.extents
    && later.window.client == r.clientRect
    && (target.Frame? ==> later.window.frame == Some(r.effective))
  }

  /** Putting the requested fields back over a clamped rectangle and clamping again changes nothing. */
  lemma ClampAbsorbsRequest(root: WindowRect, current: WindowRect, desired: Request)
    requires root.Valid() && current.Valid() && desired.Valid()
    requires ApplyPartial(current, desired).Success?
    ensures var first := ClampRect(root, ApplyPartial(current, desired).value);
      && first.Success?
      && (ApplyPartial(first.value, desired).Success? ==>
            ClampRect(root, ApplyPartial(first.value, desired).value) == first)
      && (ApplyPartial(first.value, desired).Failure? ==>
            ApplyPartial(first.value, desired) == Failure(ArithmeticOverflow))
  {
    ClampRectIsNearest(root, ApplyPartial(current, desired).value);
  }

  /** Without clamping, a request laid over its own result gives that result. */
  lemma RequestIsIdempotent(current: WindowRect, desired: Request)
    requires ApplyPartial(current, desired).Success?
    ensures ApplyPartial(ApplyPartial(current, desired).value, desired) == ApplyPartial(current, desired)
  {
  }

  lemma ChangedFieldsExist(current: WindowRect, effective: WindowRect, desired: Request)
    requires current.Valid() && current == effective
    ensures ChangedClientFields(current, effective, desired).Success?
  {
  }

  /**
   Requests converge: repeating a request once it has taken effect resolves to the same
   client and effective rectangle, and fails only where the requested fields laid over the
   effective rectangle are no longer a rectangle, which takes the clamping policy.
   */
  lemma RepeatedRequestConverges(
    c: Context, target: Target, desired: Request, policy: Policy, later: Context)
    requires c.Valid() && c.ResolveMoveResize(target, desired, policy).Success?
    requires Reached(c, later, target, c.ResolveMoveResize(target, desired, policy).value)
    ensures var r := c.ResolveMoveResize(target, desired, policy).value;
      var again := later.ResolveMoveResize(target, desired, policy);
      if ApplyPartial(r.effective, desired).Success? then
        && again.Success?
        && again.value.effective == r.effective && again.value.clientRect == r.clientRect
      else
        policy.ClampToRoot? && again == Failure(ArithmeticOverflow)
  {
    var r := c.ResolveMoveResize(target, desired, policy).value;
    var current := c.Current(target).value;
    ClampAbsorbsRequest(c.root, current, desired);
    RequestIsIdempotent(current, desired);
    hide ApplyPartial, ClampRect, ContainsRect, FrameToClient, DeriveFrame, ChangedClientFields;
    assert later.Current(target) == Success(r.effective);
    ChangedFieldsExist(later.window.client, r.clientRect, desired);
  }

  /** The failing half of the previous lemma does happen: a root at the far end of the coordinates. */
  lemma RepeatedRequestMayOverflow()
    ensures exists c: Context, desired: Request, later: Context ::
      && c.Valid() && c.ResolveMoveResize(Client, desired, ClampToRoot).Success?
      && Reached(c, later, Client, c.ResolveMoveResize(Client, desired, ClampToRoot).value)
      && later.ResolveMoveResize(Client, desired, ClampToRoot) == Failure(ArithmeticOverflow)
  {
    var root := WindowRect(RootPhysical, Rect(I32_MAX - 9, 0, 10, 10));
    var before := WindowRect(RootPhysical, Rect(0, 0, 10, 10));
    var desired := Request(None, None, Some(20), None);
    var c := Context(root, Window(before, None, before, None));
    var r := c.ResolveMoveResize(Client, desired, ClampToRoot).value;
    var later := Context(root, Window(r.clientRect, None, r.clientRect, None));
    assert r.clientRect == root;
    assert Reached(c, later, Client, r);
  }

  // ------------------------------------------------------------ resolving a point

  /**
   A client-local point and the same point given in frame coordinates, that is shifted by
   the left and top extents, resolve identically under every policy, errors included.
   */
  lemma FramePointIsShiftedClientPoint(c: Context, p: Point, shifted: Point, policy: Policy)
    requires c.Valid() && c.window.frame.Some? && c.window.extents.Some?
    requires shifted.x == p.x + c.window.extents.value.left && shifted.y == p.y + c.window.extents.value.top
    ensures c.ResolveLocalPoint(WindowClient, p, policy) == c.ResolveLocalPoint(WindowFrame, shifted, policy)
  {
  }

  /**
   A point in client or frame coordinates resolves exactly when its translation is representable
   and, where containment is demanded, inside the root; the flag is raised exactly when a clamped
   point moved, and a resolved point is the translation or, under clamping, the root pixel nearest
   to it. Other coordinate spaces, and a frame that is not known, are refused.
   */
  lemma ResolvedPointIsNearest(c: Context, space: Space, p: Point, policy: Policy)
    requires c.Valid()
    ensures var r := c.ResolveLocalPoint(space, p, policy);
      if space == RootPhysical || space == AtspiScreen then r == Failure(UnsupportedCoordinateSpace)
      else if space == WindowFrame && c.window.frame.None? then r == Failure(FrameGeometryUnavailable)
      else
        var origin := if space == WindowFrame then c.window.frame.value.rect else c.window.client.rect;
        var x := origin.x + p.x;
        var y := origin.y + p.y;
        if !(-0x8000_0000 <= x <= 0x7FFF_FFFF && -0x8000_0000 <= y <= 0x7FFF_FFFF) then r == Failure(ArithmeticOverflow)
        else if policy == RequireInsideRoot && !InsidePoint(c.root, Point(x, y)) then r == Failure(OutsideRootBounds)
        else r.Success? && PointFor(r.value, x, y, c.root, policy)
  {
    hide ClampPoint, ContainsPoint, Nearest, DeriveFrame, InsidePoint;
    if space == WindowClient || (space == WindowFrame && c.window.frame.Some?) {
      var origin := if space == WindowFrame then c.window.frame.value.rect else c.window.client.rect;
      var x := origin.x + p.x;
      var y := origin.y + p.y;
      if -0x8000_0000 <= x <= I32_MAX && -0x8000_0000 <= y <= I32_MAX {
        ClampPointIsNearest(c.root, Point(x, y));
        ClampedPointFor(c.root, Point(x, y));
      }
    }
  }

  lemma ClampedPointFor(root: WindowRect, p: Point)
    requires root.Valid() && ClampPoint(root, p).Success?
    ensures var q := ClampPoint(root, p).value;
      && Nearest(q.x, p.x, 1, root.rect.x, root.rect.x + root.rect.width)
      && Nearest(q.y, p.y, 1, root.rect.y, root.rect.y + root.rect.height)
  {
  }

  /** The point itself or, under clamping, the root pixel nearest to it, and whether that is another. */
  ghost predicate PointFor(r: ResolvedPoint, x: int, y: int, root: WindowRect, policy: Policy) {
    && (policy != ClampToRoot ==> r.root.x == x && r.root.y == y)
    && (policy != AllowOffscreen ==> InsidePoint(root, r.root))
    && (policy == ClampToRoot ==>
          && Nearest(r.root.x, x, 1, root.rect.x, root.rect.x + root.rect.width)
          && Nearest(r.root.y, y, 1, root.rect.y, root.rect.y + root.rect.height))
    && (r.constrained <==> r.root.x != x || r.root.y != y)
  }
}
