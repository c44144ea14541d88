/** The simulation's hyper-parameters: the configuration record they come from
    (`populate`) and the 84-byte blob `parametrize` writes behind the state word
    (`struct.pack("<fII5f9I4f", ...)`). */
module HyperParams {
  import opened Bytes
  import opened Layout
  import opened Wrappers

  /** The configuration keys `populate` reads, each with the type its blob field has. */
  datatype Config = Config(
    speedFactor: f32,
    spawnPedestrians: u32,
    spawnCars: u32,
    moveSpeed: f32,
    turnSpeed: f32,
    verticalSpeed: f32,
    momentum: f32,
    fixedDeltaTime: f32,
    numberOfSteps: u32,
    rgbCamera: u32,
    depthCamera: u32,
    normalsCamera: u32,
    semanticCamera: u32,
    imgSize: u32,
    verticalFov: f32,
    startX: f32,
    startY: f32,
    startZ: f32,
    launchStreaming: u32,
    render: u32)

  /** The hyper-parameter record, its fields in blob order. */
  datatype Params = Params(
    speedFactor: f32,
    spawnPeds: u32,
    spawnCars: u32,
    moveSpeed: f32,
    turnSpeed: f32,
    verticalSpeed: f32,
    momentum: f32,
    fixedDeltaTime: f32,
    nActions: u32,
    rgb: u32,
    depth: u32,
    normals: u32,
    semantic: u32,
    launchStreaming: u32,
    render: u32,
    imageWidth: u32,
    imageHeight: u32,
    vFov: f32,
    startX: f32,
    startY: f32,
    startZ: f32)

  /** The four camera enable flags, in the order of `ORDER`. */
  function CameraFlags(p: Params): (flags: seq<u32>)
    ensures |flags| == |ORDER|
  {
    [p.rgb, p.depth, p.normals, p.semantic]
  }

  /** `populate(config)` */
  function Populate(c: Config): (p: Params)
    ensures p.imageWidth == c.imgSize && p.imageHeight == c.imgSize
    ensures Words(p) == [c.speedFactor, c.spawnPedestrians, c.spawnCars,
                         c.moveSpeed, c.turnSpeed, c.verticalSpeed, c.momentum, c.fixedDeltaTime,
                         c.numberOfSteps, c.rgbCamera, c.depthCamera, c.normalsCamera, c.semanticCamera,
                         c.launchStreaming, c.render, c.imgSize, c.imgSize,
                         c.verticalFov, c.startX, c.startY, c.startZ]
    ensures CameraFlags(p) == [c.rgbCamera, c.depthCamera, c.normalsCamera, c.semanticCamera]
  {
    Params(
      speedFactor := c.speedFactor,
      spawnPeds := c.spawnPedestrians,
      spawnCars := c.spawnCars,
      moveSpeed := c.moveSpeed,
      turnSpeed := c.turnSpeed,
      verticalSpeed := c.verticalSpeed,
      momentum := c.momentum,
      fixedDeltaTime := c.fixedDeltaTime,
      nActions := c.numberOfSteps,
      rgb := c.rgbCamera,
      depth := c.depthCamera,
      normals := c.normalsCamera,
      semantic := c.semanticCamera,
      imageWidth := c.imgSize,
      imageHeight := c.imgSize,
      vFov := c.verticalFov,
      startX := c.startX,
      startY := c.startY,
      startZ := c.startZ,
      launchStreaming := c.launchStreaming,
      render := c.render)
  }

  /** The 21 four-byte fields in the order of `<fII5f9I4f`. */
  function Words(p: Params): (ws: seq<u32>)
    ensures |ws| == HP_FIELDS
  {
    [p.speedFactor, p.spawnPeds, p.spawnCars,
     p.moveSpeed, p.turnSpeed, p.verticalSpeed, p.momentum, p.fixedDeltaTime,
     p.nActions, p.rgb, p.depth, p.normals, p.semantic, p.launchStreaming, p.render,
     p.imageWidth, p.imageHeight,
     p.vFov, p.startX, p.startY, p.startZ]
  }

  function FromWords(ws: seq<u32>): (p: Params)
    requires |ws| == HP_FIELDS
    ensures Words(p) == ws
  {
    Params(ws[0], ws[1], ws[2], ws[3], ws[4], ws[5], ws[6], ws[7], ws[8], ws[9], ws[10],
           ws[11], ws[12], ws[13], ws[14], ws[15], ws[16], ws[17], ws[18], ws[19], ws[20])
  }

  /** `hp_blob`: the payload `parametrize` sends. */
  function Pack(p: Params): (blob: seq<byte>)
    ensures |blob| == HP_BYTES
  {
    EncodeWords(Words(p))
  }

  /** `struct.unpack("<fII5f9I4f", blob)`, which fails unless the blob is exactly 84 bytes. */
  function Unpack(blob: seq<byte>): (r: Option<Params>)
    ensures r.Some? <==> |blob| == HP_BYTES
  {
    if |blob| != HP_BYTES then None else Some(FromWords(DecodeWords(blob)))
  }

  /** Decoding the blob with the same format gives the record back. */
  lemma UnpackPack(p: Params)
    ensures Unpack(Pack(p)) == Some(p)
  {
    DecodeEncodeWords(Words(p));
    var q := FromWords(DecodeWords(Pack(p)));
    assert Words(q) == Words(p);
  }

  /** Every 84-byte blob is the packing of the record it decodes to. */
  lemma PackUnpack(blob: seq<byte>)
    requires |blob| == HP_BYTES
    ensures Unpack(blob).Some? && Pack(Unpack(blob).value) == blob
  {
    EncodeDecodeWords(blob);
  }

  /** Field `k` of the record (in format order) is the little-endian word at byte `4k`. */
  lemma PackFieldAt(p: Params, k: nat)
    requires k < HP_FIELDS
    ensures U32At(Pack(p), WORD * k) == Words(p)[k]
  {
    EncodeWordsAt(Words(p), k);
    DecodeLeU32(Words(p)[k]);
  }

  /** What the peer decodes from a populated record: the camera flags sit in
      fields 9-12 and both image dimensions (fields 15 and 16) carry `IMG_SIZE`. */
  lemma PopulatedBlob(c: Config)
    ensures U32At(Pack(Populate(c)), 9 * WORD) == c.rgbCamera
    ensures U32At(Pack(Populate(c)), 10 * WORD) == c.depthCamera
    ensures U32At(Pack(Populate(c)), 11 * WORD) == c.normalsCamera
    ensures U32At(Pack(Populate(c)), 12 * WORD) == c.semanticCamera
    ensures U32At(Pack(Populate(c)), 15 * WORD) == c.imgSize
    ensures U32At(Pack(Populate(c)), 16 * WORD) == c.imgSize
  {
    var p := Populate(c);
    PackFieldAt(p, 9);
    PackFieldAt(p, 10);
    PackFieldAt(p, 11);
    PackFieldAt(p, 12);
    PackFieldAt(p, 15);
    PackFieldAt(p, 16);
  }
}
