/**
 * The Windows plugin's surface registry as a sequential state machine: the
 * decoding of method-channel arguments, and the decisions `getTextureInfo`
 * and `disposeTexture` make over the map from surface id to surface state.
 *
 * The engine and the texture registrar are outside the model: what they
 * answer during a request is a parameter (`Env`), and each handler reports
 * the calls it makes to them, in order.
 */
module SurfaceRegistry {
  import opened Ints
  import opened Wrappers

  const FALLBACK_SIZE: int := 512
  const FALLBACK_LAYER_COUNT: int := 1
  const FALLBACK_BACKGROUND: u32 := 0xFFFF_FFFF
  const MAX_DIMENSION: int := 16384
  const MAX_LAYER_COUNT: int := 1024
  const BYTES_PER_PIXEL: int := 4

  // ---------------------------------------------------------------------
  // Argument decoding
  // ---------------------------------------------------------------------

  /** The encodable values the handlers distinguish; a double is finite. */
  datatype Value = Int32Value(i: i32) | Int64Value(l: i64) | DoubleValue(d: real) | StringValue(s: string) | OtherValue

  type Args = map<string, Value>

  /** `static_cast<int64_t>` of a double: truncation toward zero. */
  function Truncate(d: real): (n: int)
    ensures 0.0 <= d ==> 0 <= n && n as real <= d < n as real + 1.0
    ensures d < 0.0 ==> n <= 0 && n as real - 1.0 < d <= n as real
  {
    if d >= 0.0 then d.Floor else -((-d).Floor)
  }

  /** `GetIntValue`: an integer as it is, a double truncated, anything else absent. */
  function GetIntValue(v: Value): (r: Option<int>)
    ensures r.None? <==> v.StringValue? || v.OtherValue?
    ensures v.Int32Value? ==> r == Some(v.i)
    ensures v.Int64Value? ==> r == Some(v.l)
    ensures v.DoubleValue? ==> r == Some(Truncate(v.d))
  {
    match v
    case Int32Value(i) => Some(i)
    case Int64Value(l) => Some(l)
    case DoubleValue(d) => Some(Truncate(d))
    case _ => None
  }

  /**
   * `GetClampedInt`: the number at `key` narrowed to a 32-bit `int` and
   * clamped to `[lo, hi]`; the clamped fallback when the key is missing or
   * does not hold a number.
   */
  function GetClampedInt(args: Args, key: string, fallback: int, lo: int, hi: int): (r: int)
    requires I32_MIN <= lo <= hi <= I32_MAX
    ensures lo <= r <= hi
    ensures key !in args || GetIntValue(args[key]).None? ==> r == Clamp(fallback, lo, hi)
    ensures key in args && GetIntValue(args[key]).Some? && lo <= GetIntValue(args[key]).value <= hi
      ==> r == GetIntValue(args[key]).value
    ensures key in args && GetIntValue(args[key]).Some? && I32_MIN <= GetIntValue(args[key]).value <= I32_MAX
      ==> (GetIntValue(args[key]).value < lo ==> r == lo) && (GetIntValue(args[key]).value > hi ==> r == hi)
  {
    if key !in args then Clamp(fallback, lo, hi)
    else match GetIntValue(args[key])
      case None => Clamp(fallback, lo, hi)
      case Some(v) =>
        assert I32_MIN <= v <= I32_MAX ==> WrapI32(v) == v;
        Clamp(WrapI32(v), lo, hi)
  }

  /** The narrowing happens before the clamp: a width of 2^32 + 5 becomes 5, not the maximum. */
  lemma NarrowingBeforeClamp()
    ensures GetClampedInt(map["width" := Int64Value(U32_LIMIT + 5)], "width", FALLBACK_SIZE, 1, MAX_DIMENSION) == 5
  {
    assert WrapI32(U32_LIMIT + 5) == 5;
  }

  /** `GetBackgroundColor`: the number's low 32 bits, or opaque white. */
  function GetBackgroundColor(args: Args): (c: u32)
    ensures "backgroundColorArgb" !in args || GetIntValue(args["backgroundColorArgb"]).None? ==> c == FALLBACK_BACKGROUND
    ensures "backgroundColorArgb" in args && GetIntValue(args["backgroundColorArgb"]).Some? ==>
      (c - GetIntValue(args["backgroundColorArgb"]).value) % U32_LIMIT == 0
  {
    if "backgroundColorArgb" !in args then FALLBACK_BACKGROUND
    else match GetIntValue(args["backgroundColorArgb"])
      case None => FALLBACK_BACKGROUND
      case Some(v) => v % U32_LIMIT
  }

  predicate IsDigit(c: char) { '0' <= c <= '9' }

  predicate AllDigits(s: string)
  {
    forall i :: 0 <= i < |s| ==> IsDigit(s[i])
  }

  function DigitChar(d: int): (c: char)
    requires 0 <= d < 10
    ensures IsDigit(c) && c as int - '0' as int == d
  {
    ('0' as int + d) as char
  }

  /** The decimal digits of a natural number, most significant first. */
  function NatDigits(n: nat): (s: string)
    ensures |s| >= 1 && AllDigits(s)
  {
    if n < 10 then [DigitChar(n)] else NatDigits(n / 10) + [DigitChar(n % 10)]
  }

  /** `std::to_string` of an integer. */
  function DecimalString(n: int): (s: string)
    ensures |s| >= 1
  {
    if n < 0 then "-" + NatDigits(-n) else NatDigits(n)
  }

  /** The value of a string of decimal digits. */
  function ParseDigits(s: string): nat
    requires AllDigits(s)
  {
    if |s| == 0 then 0 else ParseDigits(s[..|s| - 1]) * 10 + (s[|s| - 1] as int - '0' as int)
  }

  /** The value of an optionally negative decimal numeral. */
  function ParseDecimal(s: string): int
    requires |s| >= 1 && (if s[0] == '-' then AllDigits(s[1..]) else AllDigits(s))
  {
    if s[0] == '-' then -(ParseDigits(s[1..]) as int) else ParseDigits(s)
  }

  lemma {:induction false} DigitsRoundTrip(n: nat)
    ensures ParseDigits(NatDigits(n)) == n
  {
    if n >= 10 {
      var s := NatDigits(n);
      assert s[..|s| - 1] == NatDigits(n / 10);
      DigitsRoundTrip(n / 10);
    }
  }

  /** Reading a decimal id back gives the number it was made from, so distinct numbers name distinct surfaces. */
  lemma DecimalRoundTrip(n: int)
    ensures |DecimalString(n)| >= 1
    ensures var s := DecimalString(n); (if s[0] == '-' then AllDigits(s[1..]) else AllDigits(s)) && ParseDecimal(s) == n
  {
    if n < 0 {
      var s := DecimalString(n);
      assert s[1..] == NatDigits(-n);
      DigitsRoundTrip(-n);
    } else {
      DigitsRoundTrip(n);
    }
  }

  /** `GetSurfaceId`: a non-empty string as it is, a number in decimal, otherwise `"default"`. */
  function GetSurfaceId(args: Args): (id: string)
    ensures id != ""
    ensures "surfaceId" !in args ==> id == "default"
    ensures "surfaceId" in args && args["surfaceId"].StringValue? && args["surfaceId"].s != "" ==> id == args["surfaceId"].s
  {
    if "surfaceId" !in args then "default"
    else
      var v := args["surfaceId"];
      if v.StringValue? && v.s != "" then v.s
      else match GetIntValue(v)
        case Some(n) => DecimalString(n)
        case None => "default"
  }

  /** A number and its decimal string name the same surface; an empty string names the default one. */
  lemma SurfaceIdAliases(n: i64)
    ensures GetSurfaceId(map["surfaceId" := Int64Value(0)]) == "0"
    ensures GetSurfaceId(map["surfaceId" := StringValue("")]) == "default"
    ensures GetSurfaceId(map["surfaceId" := Int64Value(n)]) == GetSurfaceId(map["surfaceId" := StringValue(DecimalString(n))])
  {
  }

  /** A decoded `getTextureInfo` request. */
  datatype Request = Request(id: string, width: int, height: int, layerCount: int, background: u32)

  /** The request the handler decodes from its arguments. */
  function DecodeRequest(args: Args): (q: Request)
    ensures q.id != ""
    ensures 1 <= q.width <= MAX_DIMENSION && 1 <= q.height <= MAX_DIMENSION && 1 <= q.layerCount <= MAX_LAYER_COUNT
    ensures "width" !in args ==> q.width == FALLBACK_SIZE
    ensures "height" !in args ==> q.height == FALLBACK_SIZE
    ensures "layerCount" !in args ==> q.layerCount == FALLBACK_LAYER_COUNT
    ensures "backgroundColorArgb" !in args ==> q.background == FALLBACK_BACKGROUND
  {
    Request(GetSurfaceId(args),
            GetClampedInt(args, "width", FALLBACK_SIZE, 1, MAX_DIMENSION),
            GetClampedInt(args, "height", FALLBACK_SIZE, 1, MAX_DIMENSION),
            GetClampedInt(args, "layerCount", FALLBACK_LAYER_COUNT, 1, MAX_LAYER_COUNT),
            GetBackgroundColor(args))
  }

  // ---------------------------------------------------------------------
  // Surfaces
  // ---------------------------------------------------------------------

  /** `SurfaceState` without its texture object and mutex; the pixel buffer is represented by its length. */
  datatype Surface = Surface(width: int, height: int, layerCount: int, background: u32,
                             engineHandle: u64, textureId: i64, pixelBufferLen: nat)

  /** A freshly emplaced surface. */
  const NEW_SURFACE: Surface := Surface(0, 0, FALLBACK_LAYER_COUNT, FALLBACK_BACKGROUND, 0, -1, 0)

  type Registry = map<string, Surface>

  /**
   * What every surface satisfies between requests: its pixel buffer holds
   * four bytes per pixel, and a surface with an engine has a size and a
   * layer count in range.
   */
  predicate SurfaceValid(s: Surface)
  {
    s.pixelBufferLen == s.width * s.height * BYTES_PER_PIXEL
    && (s.engineHandle != 0 ==>
          1 <= s.width <= MAX_DIMENSION && 1 <= s.height <= MAX_DIMENSION && 1 <= s.layerCount <= MAX_LAYER_COUNT)
  }

  predicate RegistryValid(reg: Registry)
  {
    forall id :: id in reg ==> SurfaceValid(reg[id])
  }

  /** The calls a handler makes to the engine and the texture registrar. */
  datatype Call =
    | EngineCreate(width: int, height: int)
    | EngineResize(handle: u64, width: int, height: int, layers: int, background: u32)
    | EngineDispose(handle: u64)
    | UnregisterTexture(textureId: i64)
    | RegisterTexture
    | AttachPresent(handle: u64, width: int, height: int, bytesPerRow: int)
    | ResetLayers(handle: u64, layers: int, background: u32)

  /** What the engine and the registrar answer during one request. */
  datatype Env = Env(createdHandle: u64, resizeOk: bool, registeredTextureId: i64)

  datatype Reply =
    | TextureInfo(textureId: i64, engineHandle: u64, width: int, height: int, isNewEngine: bool)
    | EngineCreateFailed

  datatype Outcome = Outcome(registry: Registry, reply: Reply, calls: seq<Call>)

  /** The surface a request works on: the registered one, or a new one. */
  function SurfaceFor(reg: Registry, id: string): Surface
  {
    if id in reg then reg[id] else NEW_SURFACE
  }

  /** The surface is ready and already has the requested size and layer count. */
  predicate Matches(s: Surface, q: Request)
  {
    s.engineHandle != 0 && s.textureId >= 0
    && s.width == q.width && s.height == q.height && s.layerCount == q.layerCount
  }

  predicate NeedsResize(s: Surface, q: Request)
  {
    s.engineHandle != 0 && (s.width != q.width || s.height != q.height)
  }

  predicate LayerCountChanged(s: Surface, q: Request)
  {
    s.engineHandle != 0 && s.layerCount != q.layerCount
  }

  /** The engine step: the handle to use, whether it is a new engine, and the engine calls made. */
  datatype EngineStep = EngineStep(handle: u64, created: bool, calls: seq<Call>)

  /**
   * A missing engine is created; an engine of the wrong size is resized,
   * and when the resize fails it is disposed and a new one is created.
   */
  function AcquireEngine(s: Surface, q: Request, env: Env): (e: EngineStep)
    ensures e.created <==> s.engineHandle == 0 || (NeedsResize(s, q) && !env.resizeOk)
    ensures e.created ==> e.handle == env.createdHandle
    ensures !e.created ==> e.handle == s.engineHandle != 0
  {
    if s.engineHandle == 0 then EngineStep(env.createdHandle, true, [EngineCreate(q.width, q.height)])
    else if NeedsResize(s, q) then
      var resize := EngineResize(s.engineHandle, q.width, q.height, q.layerCount, q.background);
      if env.resizeOk then EngineStep(s.engineHandle, false, [resize])
      else EngineStep(env.createdHandle, true, [resize, EngineDispose(s.engineHandle), EngineCreate(q.width, q.height)])
    else EngineStep(s.engineHandle, false, [])
  }

  /**
   * The surface after a request, the reply and the calls made.  With
   * `clearDisposed` false this is `HandleGetTextureInfo` as written; with
   * it true, a failed request that disposed the surface's engine also
   * forgets the disposed handle.
   */
  function Serve(s: Surface, q: Request, env: Env, clearDisposed: bool): (r: (Surface, Reply, seq<Call>))
    requires 1 <= q.width <= MAX_DIMENSION && 1 <= q.height <= MAX_DIMENSION && 1 <= q.layerCount <= MAX_LAYER_COUNT
    ensures SurfaceValid(s) ==> SurfaceValid(r.0)
  {
    if Matches(s, q) then (s, TextureInfo(s.textureId, s.engineHandle, s.width, s.height, false), [])
    else
      var needsResize := NeedsResize(s, q);
      var e := AcquireEngine(s, q, env);
      if e.handle == 0 then
        var kept := if clearDisposed && e.created then s.(engineHandle := 0) else s;
        (kept, EngineCreateFailed, e.calls)
      else
        var reRegister := needsResize || s.textureId < 0;
        var textureCalls :=
          if !reRegister then []
          else if s.textureId >= 0 then [UnregisterTexture(s.textureId), RegisterTexture]
          else [RegisterTexture];
        var textureId := if reRegister then env.registeredTextureId else s.textureId;
        var reset :=
          if e.created || needsResize || LayerCountChanged(s, q) then [ResetLayers(e.handle, q.layerCount, q.background)]
          else [];
        var t := Surface(q.width, q.height, q.layerCount, q.background, e.handle, textureId,
                         q.width * q.height * BYTES_PER_PIXEL);
        (t, TextureInfo(textureId, e.handle, q.width, q.height, e.created || needsResize),
         e.calls + textureCalls + [AttachPresent(e.handle, q.width, q.height, q.width * BYTES_PER_PIXEL)] + reset)
  }

  /** A request for the surface its arguments name, which is registered (new) if it was not. */
  function GetTextureInfoWith(reg: Registry, args: Args, env: Env, clearDisposed: bool): (o: Outcome)
    ensures o.registry.Keys == reg.Keys + {GetSurfaceId(args)}
    ensures forall id :: id in reg && id != GetSurfaceId(args) ==> o.registry[id] == reg[id]
    ensures RegistryValid(reg) ==> RegistryValid(o.registry)
  {
    var q := DecodeRequest(args);
    var r := Serve(SurfaceFor(reg, q.id), q, env, clearDisposed);
    Outcome(reg[q.id := r.0], r.1, r.2)
  }

  /** The handler as written. */
  function GetTextureInfo(reg: Registry, args: Args, env: Env): Outcome
  {
    GetTextureInfoWith(reg, args, env, false)
  }

  /** The handler with the disposed handle forgotten on failure. */
  function GetTextureInfoFixed(reg: Registry, args: Args, env: Env): (o: Outcome)
    ensures o.reply == GetTextureInfo(reg, args, env).reply && o.calls == GetTextureInfo(reg, args, env).calls
  {
    GetTextureInfoWith(reg, args, env, true)
  }

  /** A ready surface of the requested size and layer count is answered from its state, with no call made. */
  lemma ReadySurfaceAnswersDirectly(reg: Registry, args: Args, env: Env)
    requires var q := DecodeRequest(args); q.id in reg && Matches(reg[q.id], q)
    ensures var o := GetTextureInfo(reg, args, env); var s := reg[GetSurfaceId(args)];
      o.calls == [] && o.registry == reg
      && o.reply == TextureInfo(s.textureId, s.engineHandle, s.width, s.height, false)
  {
    var q := DecodeRequest(args);
    assert reg[q.id := reg[q.id]] == reg;
  }

  /**
   * A surface without an engine asks for one first; when the engine
   * cannot be created the request fails, and the surface stays registered.
   */
  lemma MissingEngineIsCreated(reg: Registry, args: Args, env: Env)
    requires SurfaceFor(reg, GetSurfaceId(args)).engineHandle == 0
    ensures var o := GetTextureInfo(reg, args, env); var q := DecodeRequest(args);
      |o.calls| >= 1 && o.calls[0] == EngineCreate(q.width, q.height)
      && (env.createdHandle == 0 ==> o.reply == EngineCreateFailed && q.id in o.registry && o.calls == [o.calls[0]])
      && (env.createdHandle != 0 ==> o.reply.TextureInfo? && o.reply.isNewEngine && o.reply.engineHandle == env.createdHandle)
  {
  }

  /** A failed resize disposes the old engine and creates a new one of the requested size. */
  lemma FailedResizeRecreates(reg: Registry, args: Args, env: Env)
    requires var q := DecodeRequest(args); NeedsResize(SurfaceFor(reg, q.id), q) && !env.resizeOk
    ensures var o := GetTextureInfo(reg, args, env); var q := DecodeRequest(args); var prev := SurfaceFor(reg, q.id).engineHandle;
      |o.calls| >= 3
      && o.calls[..3] == [EngineResize(prev, q.width, q.height, q.layerCount, q.background), EngineDispose(prev), EngineCreate(q.width, q.height)]
  {
  }

  /** A new texture is registered exactly when a request succeeds on a resize or on a surface without one. */
  lemma TextureRegisteredWhenNeeded(reg: Registry, args: Args, env: Env)
    ensures var o := GetTextureInfo(reg, args, env); var q := DecodeRequest(args); var s := SurfaceFor(reg, q.id);
      RegisterTexture in o.calls <==> o.reply.TextureInfo? && !Matches(s, q) && (NeedsResize(s, q) || s.textureId < 0)
  {
    var q := DecodeRequest(args);
    var s := SurfaceFor(reg, q.id);
    var e := AcquireEngine(s, q, env);
    assert RegisterTexture !in e.calls;
  }

  /** Only the surface's own texture is ever unregistered, and only when it is replaced, immediately before. */
  lemma OldTextureUnregisteredFirst(s: Surface, q: Request, env: Env, clearDisposed: bool)
    requires 1 <= q.width <= MAX_DIMENSION && 1 <= q.height <= MAX_DIMENSION && 1 <= q.layerCount <= MAX_LAYER_COUNT
    ensures var calls := Serve(s, q, env, clearDisposed).2;
      (forall id :: UnregisterTexture(id) in calls ==> id == s.textureId >= 0 && RegisterTexture in calls)
      && (RegisterTexture in calls && s.textureId >= 0 ==>
            exists i :: 0 <= i < |calls| - 1 && calls[i] == UnregisterTexture(s.textureId) && calls[i + 1] == RegisterTexture)
  {
    var calls := Serve(s, q, env, clearDisposed).2;
    var e := AcquireEngine(s, q, env);
    assert forall id :: UnregisterTexture(id) !in e.calls;
    assert RegisterTexture !in e.calls;
    if !Matches(s, q) && e.handle != 0 && (NeedsResize(s, q) || s.textureId < 0) {
      var rest := [AttachPresent(e.handle, q.width, q.height, q.width * BYTES_PER_PIXEL)]
        + (if e.created || NeedsResize(s, q) || LayerCountChanged(s, q) then [ResetLayers(e.handle, q.layerCount, q.background)] else []);
      assert forall id :: UnregisterTexture(id) !in rest;
      assert RegisterTexture !in rest;
      if s.textureId >= 0 {
        var i := |e.calls|;
        assert calls == e.calls + [UnregisterTexture(s.textureId), RegisterTexture] + rest;
        assert calls[i] == UnregisterTexture(s.textureId) && calls[i + 1] == RegisterTexture;
      } else {
        assert calls == e.calls + [RegisterTexture] + rest;
      }
    }
  }

  /**
   * The layers are reset exactly when a request succeeds on a new engine,
   * a resize or a changed layer count, and the reply calls the engine new
   * exactly when it was created or resized.
   */
  lemma ResetAndNewEngine(reg: Registry, args: Args, env: Env)
    ensures var o := GetTextureInfo(reg, args, env); var q := DecodeRequest(args); var s := SurfaceFor(reg, q.id);
      var created := s.engineHandle == 0 || (NeedsResize(s, q) && !env.resizeOk);
      ((exists l, b, h :: ResetLayers(h, l, b) in o.calls) <==>
        o.reply.TextureInfo? && !Matches(s, q) && (created || NeedsResize(s, q) || LayerCountChanged(s, q)))
      && (o.reply.TextureInfo? && !Matches(s, q) ==> o.reply.isNewEngine == (created || NeedsResize(s, q)))
  {
    var o := GetTextureInfo(reg, args, env);
    var q := DecodeRequest(args);
    var s := SurfaceFor(reg, q.id);
    var e := AcquireEngine(s, q, env);
    if o.reply.TextureInfo? && !Matches(s, q) && (e.created || NeedsResize(s, q) || LayerCountChanged(s, q)) {
      assert o.calls[|o.calls| - 1] == ResetLayers(e.handle, q.layerCount, q.background);
    }
  }

  /** After a successful request with a registered texture, repeating it is answered directly. */
  lemma RepeatIsDirect(reg: Registry, args: Args, env: Env, env': Env)
    requires var o := GetTextureInfo(reg, args, env); o.reply.TextureInfo? && o.reply.textureId >= 0
    ensures var o := GetTextureInfo(reg, args, env); var o' := GetTextureInfo(o.registry, args, env');
      o'.calls == [] && o'.registry == o.registry && o'.reply == o.reply.(isNewEngine := false)
  {
    var o := GetTextureInfo(reg, args, env);
    ReadySurfaceAnswersDirectly(o.registry, args, env');
  }

  /**
   * As written, a request whose resize fails and whose replacement engine
   * cannot be created leaves the surface holding the engine it just
   * disposed.
   */
  lemma DisposedHandleKept()
    ensures var reg := map["default" := Surface(256, 256, 1, FALLBACK_BACKGROUND, 7, 3, 256 * 256 * 4)];
      var o := GetTextureInfo(reg, map[], Env(0, false, 4));
      EngineDispose(7) in o.calls && o.reply == EngineCreateFailed && o.registry["default"].engineHandle == 7
  {
    var reg := map["default" := Surface(256, 256, 1, FALLBACK_BACKGROUND, 7, 3, 256 * 256 * 4)];
    var o := GetTextureInfo(reg, map[], Env(0, false, 4));
    assert o.calls[1] == EngineDispose(7);
  }

  /**
   * With the fix, no surface keeps an engine handle the request disposed
   * (given that a new engine never receives the handle of a live one).
   */
  lemma FixedForgetsDisposedHandle(reg: Registry, args: Args, env: Env)
    requires env.createdHandle != SurfaceFor(reg, GetSurfaceId(args)).engineHandle
    ensures var o := GetTextureInfoFixed(reg, args, env);
      forall h :: EngineDispose(h) in o.calls ==> o.registry[GetSurfaceId(args)].engineHandle != h
  {
    var o := GetTextureInfoFixed(reg, args, env);
    var q := DecodeRequest(args);
    var s := SurfaceFor(reg, q.id);
    var e := AcquireEngine(s, q, env);
    forall h | EngineDispose(h) in o.calls
      ensures o.registry[q.id].engineHandle != h
    {
      assert NeedsResize(s, q) && !env.resizeOk && h == s.engineHandle != 0;
    }
  }

  /**
   * `HandleDisposeTexture`: the surface leaves the map, its texture is
   * unregistered and its engine disposed; an unknown id changes nothing
   * and still succeeds.
   */
  function DisposeTexture(reg: Registry, args: Args): (r: (Registry, seq<Call>))
    ensures r.0 == reg - {GetSurfaceId(args)}
    ensures GetSurfaceId(args) !in reg ==> r.1 == []
    ensures var id := GetSurfaceId(args);
      forall c :: c in r.1 <==>
        id in reg && ((c == UnregisterTexture(reg[id].textureId) && reg[id].textureId >= 0)
                      || (c == EngineDispose(reg[id].engineHandle) && reg[id].engineHandle != 0))
    ensures RegistryValid(reg) ==> RegistryValid(r.0)
  {
    var id := GetSurfaceId(args);
    if id !in reg then (reg, [])
    else
      var s := reg[id];
      var unregister := if s.textureId >= 0 then [UnregisterTexture(s.textureId)] else [];
      var dispose := if s.engineHandle != 0 then [EngineDispose(s.engineHandle)] else [];
      (reg - {id}, unregister + dispose)
  }

  /** Disposing twice is the same as disposing once, and the second time makes no call. */
  lemma DisposeIdempotent(reg: Registry, args: Args)
    ensures var once := DisposeTexture(reg, args); var twice := DisposeTexture(once.0, args);
      twice.0 == once.0 && twice.1 == []
  {
  }
}
