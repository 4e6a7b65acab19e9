/** The component records of the engine (`Source/EngineName/Components`) as
    immutable values, the runtime-type tags the registry is keyed by, and
    the defaults the C# field initialisers give. Matrices (`Rotation`,
    `Frame`, camera projections) and GPU handles are not part of this model. */
module Components {
  import opened Vectors
  import opened Wrappers

  /** Keyboard keys; only the ones the modelled code names get a constructor. */
  datatype Key = W | S | A | D | Up | Down | Left | Right | Z | C | Enter | Escape | Other(code: int)

  /** The .NET type a component is stored under (`typeof(T)` or `GetType()`). */
  datatype TypeTag =
    | TTransform | TInput | T3DRenderable | T2DRenderable | TCamera | TBody | TParticle | TLogic
    | TText | TFps | TImportedModel | THeightmap

  /** `CBody`; `restitution` is declared but never read by the physics step. */
  datatype Body = Body(aabb: Box, radius: real, invMass: real, linDrag: real,
                       position: Vec3, restitution: real, velocity: Vec3)

  /** `new CBody()`: radius 1, inverse mass 1, no drag, restitution 1, zero box and state. */
  const DefaultBody: Body := Body(Box(Zero, Zero), 1.0, 1.0, 0.0, Zero, 1.0, Zero)

  /** `CTransform` without its matrices. */
  datatype Transform = Transform(position: Vec3, scale: Vec3)

  /** `CParticle`; the force callback `F` is represented by the vector it returns. */
  datatype Particle = Particle(position: Vec3, velocity: Vec3, force: Vec3, life: real)

  /** `new CParticle()`: two seconds to live and a zero force. */
  const DefaultParticle: Particle := Particle(Zero, Zero, Zero, 2.0)

  /** `CLogic`; `fn` identifies the `Fn` callback. */
  datatype Logic = Logic(fn: int, invHz: real, timer: real)

  /** `new CLogic { Fn = fn }`: thirty firings a second, timer at zero. */
  function DefaultLogic(fn: int): Logic { Logic(fn, 1.0 / 30.0, 0.0) }

  /** The key bindings of a `CInput`. */
  datatype InputKeys = InputKeys(forward: Key, backward: Key, left: Key, right: Key,
                                 camForward: Key, camBackward: Key, camRight: Key, camLeft: Key,
                                 zPlus: Key, zMinus: Key)

  const DefaultInput: InputKeys := InputKeys(W, S, A, D, Up, Down, Right, Left, Z, C)

  /** `CCamera` without its matrices. */
  datatype Camera = Camera(target: Vec3, heading: real, height: int, distance: int)

  const DefaultCamera: Camera := Camera(Zero, 0.0, -50, 50)

  /** One texel of a heightmap image; only the red (height) and green
      (material) channels are read by the engine. */
  datatype Pixel = Pixel(r: int, g: int)

  /** A `Texture2D` as the engine reads it: its size and `GetData` contents,
      row-major (`x + y * width`). */
  datatype Image = Image(width: nat, height: nat, pixels: seq<Pixel>)

  /** `CHeightmap`: the image, the `HeightData[x, y]` grid stored as
      `heightData[x][y]`, the two extremes and the built model handle. */
  datatype Heightmap = Heightmap(image: Image, heightData: seq<seq<Pixel>>,
                                 lowest: real, highest: real, model: Option<int>)

  /** The rates a `CFPS` label shows after a report. */
  datatype FpsRates = FpsRates(draws: real, updates: real)

  /** `CText` reduced to what the menu code reads and writes. */
  datatype Text = Text(format: string, position: Vec2)

  datatype Component =
    | CTransform(transform: Transform)
    | CInput(keys: InputKeys)
    | C3DRenderable(model3d: Option<int>)
    | CImportedModel(imported: Option<int>)
    | CHeightmap(heightmap: Heightmap)
    | CText(text: Text)
    | CFps(rates: Option<FpsRates>)
    | CCamera(camera: Camera)
    | CBody(body: Body)
    | CParticle(particle: Particle)
    | CLogic(logic: Logic)

  /** `component.GetType()`. */
  function RuntimeTag(c: Component): TypeTag {
    match c
    case CTransform(_) => TTransform
    case CInput(_) => TInput
    case C3DRenderable(_) => T3DRenderable
    case CImportedModel(_) => TImportedModel
    case CHeightmap(_) => THeightmap
    case CText(_) => TText
    case CFps(_) => TFps
    case CCamera(_) => TCamera
    case CBody(_) => TBody
    case CParticle(_) => TParticle
    case CLogic(_) => TLogic
  }

  /** The eight type maps `Scene.Init` registers, in registration order. */
  const SceneTags: seq<TypeTag> :=
    [TTransform, TInput, T3DRenderable, T2DRenderable, TCamera, TBody, TParticle, TLogic]

  /** The downcasts `(CBody)c`, `(CTransform)c`, ... that the systems apply
      to what the registry returns; a component of another class fails. */
  function AsBody(c: Component): (r: Result<Body>)
    ensures r.Ok? <==> c.CBody?
    ensures r.Ok? ==> c == CBody(r.value)
  {
    if c.CBody? then Ok(c.body) else Err(InvalidCast)
  }

  function AsTransform(c: Component): (r: Result<Transform>)
    ensures r.Ok? <==> c.CTransform?
    ensures r.Ok? ==> c == CTransform(r.value)
  {
    if c.CTransform? then Ok(c.transform) else Err(InvalidCast)
  }

  function AsParticle(c: Component): (r: Result<Particle>)
    ensures r.Ok? <==> c.CParticle?
    ensures r.Ok? ==> c == CParticle(r.value)
  {
    if c.CParticle? then Ok(c.particle) else Err(InvalidCast)
  }

  function AsLogic(c: Component): (r: Result<Logic>)
    ensures r.Ok? <==> c.CLogic?
    ensures r.Ok? ==> c == CLogic(r.value)
  {
    if c.CLogic? then Ok(c.logic) else Err(InvalidCast)
  }

  function AsCamera(c: Component): (r: Result<Camera>)
    ensures r.Ok? <==> c.CCamera?
    ensures r.Ok? ==> c == CCamera(r.value)
  {
    if c.CCamera? then Ok(c.camera) else Err(InvalidCast)
  }

  function AsInput(c: Component): (r: Result<InputKeys>)
    ensures r.Ok? <==> c.CInput?
    ensures r.Ok? ==> c == CInput(r.value)
  {
    if c.CInput? then Ok(c.keys) else Err(InvalidCast)
  }
}
