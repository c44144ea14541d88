/** The fixed layout of the shared segment (the `static_flags` constants).
    The values of `static_flags` are not part of this model; the ones below are
    representative, and the relations between them that the proofs rely on
    are collected in `LayoutAssumptionsHold`. */
module Layout {
  import opened Bytes

  /** Global header: `<IIffffff` (update index, camera count, pose) ... */
  const POSE_HDR_BYTES := 32
  /** ... followed by 16 collision flag bytes. */
  const COLLISION_OFF := POSE_HDR_BYTES
  const COLLISION_BYTES := 16
  const G_HDR := POSE_HDR_BYTES + COLLISION_BYTES

  /** Action slot: `<Iiiii` (sequence, forward, turn, vertical, gravity). */
  const ACT_OFF := G_HDR
  const ACT_BYTES := 5 * WORD

  /** Hyper-parameter block: a u32 state word, then the `<fII5f9I4f` payload. */
  const HP_OFF := ACT_OFF + ACT_BYTES
  const HP_FIELDS := 21
  const HP_BYTES := 84                 // HP_FIELDS * WORD

  /** The log region; the payload's state word is taken from its front. */
  const LOG_OFF := HP_OFF + WORD + HP_BYTES
  const LOG_BYTES := 256

  /** Function call slot: a u32 function id, then three f32 arguments. */
  const FUNC_OFF := HP_OFF + HP_BYTES + LOG_BYTES
  const FUNC_BYTES := WORD
  const ARGS_OFF := FUNC_OFF + FUNC_BYTES
  const ARGS_BYTES := 3 * WORD

  /** Camera blocks: a `<IIII` header (id, width, height, channels), then pixels. */
  const CAM_OFF := ARGS_OFF + ARGS_BYTES
  const C_HDR := 4 * WORD
  const MAX_RESOLUTION := 256
  const BPP := 4
  const MAX_CAMERAS := 4
  const MAX_PIXEL_BYTES := 262144      // MAX_RESOLUTION * MAX_RESOLUTION * BPP
  const BLOCK_STRIDE := C_HDR + MAX_PIXEL_BYTES

  /** The size of the whole segment. */
  const SHM_BYTES := 1049064           // CAM_OFF + BLOCK_STRIDE * MAX_CAMERAS

  /** Camera roles in declaration order (colour, depth, normals, semantic). */
  const ORDER: seq<string> := ["RGB", "Depth", "Normals", "Semantic"]

  /** The relations between the constants that the model's proofs depend on:
      the record sizes, the order of the regions, the call slot's id directly
      in front of its arguments, and the camera roles. */
  lemma LayoutAssumptionsHold()
    ensures POSE_HDR_BYTES == 8 * WORD && COLLISION_OFF == POSE_HDR_BYTES
    ensures G_HDR == POSE_HDR_BYTES + COLLISION_BYTES
    ensures ACT_BYTES == 5 * WORD
    ensures G_HDR <= ACT_OFF
    ensures ACT_OFF + ACT_BYTES <= HP_OFF
    ensures HP_OFF + WORD + HP_BYTES <= LOG_OFF
    ensures LOG_OFF <= FUNC_OFF
    ensures FUNC_BYTES == WORD && ARGS_OFF == FUNC_OFF + FUNC_BYTES
    ensures ARGS_BYTES == 3 * WORD
    ensures ARGS_OFF + ARGS_BYTES <= CAM_OFF
    ensures CAM_OFF == G_HDR + ACT_BYTES + HP_BYTES + LOG_BYTES + FUNC_BYTES + ARGS_BYTES
    ensures HP_BYTES == HP_FIELDS * WORD
    ensures C_HDR == 4 * WORD
    ensures MAX_PIXEL_BYTES == MAX_RESOLUTION * MAX_RESOLUTION * BPP
    ensures SHM_BYTES == CAM_OFF + BLOCK_STRIDE * MAX_CAMERAS
    ensures BLOCK_STRIDE == C_HDR + MAX_PIXEL_BYTES
    ensures |ORDER| == 4
    ensures forall i, j :: 0 <= i < j < |ORDER| ==> ORDER[i] != ORDER[j]
    ensures forall r :: r in ORDER ==> |r| > 0 && r[0] != 'c'
  {
  }

  /** `shm_size_bytes()`: the size of the whole segment. */
  function ShmSizeBytes(): (r: nat)
    ensures r == SHM_BYTES
  {
    var camOff := G_HDR + ACT_BYTES + HP_BYTES + LOG_BYTES + FUNC_BYTES + ARGS_BYTES;
    var bytesPerCam := C_HDR + MAX_RESOLUTION * MAX_RESOLUTION * BPP;
    camOff + bytesPerCam * MAX_CAMERAS
  }

  /** Where camera block `i` (its header) starts: `off` begins at `CAM_OFF`
      and advances by `BLOCK_STRIDE` per camera. */
  function CamOffset(i: nat): (off: nat)
    ensures off >= CAM_OFF
  {
    if i == 0 then CAM_OFF else CamOffset(i - 1) + BLOCK_STRIDE
  }

  /** Where camera `i`'s pixels start. */
  function PixelOffset(i: nat): (off: nat)
    ensures off == CamOffset(i) + C_HDR
  {
    CamOffset(i) + C_HDR
  }

  /** Block `i` starts `i` strides after the first one. */
  lemma {:induction false} CamOffsetClosed(i: nat)
    ensures CamOffset(i) == CAM_OFF + i * BLOCK_STRIDE
  {
    if i > 0 {
      CamOffsetClosed(i - 1);
      assert i * BLOCK_STRIDE == (i - 1) * BLOCK_STRIDE + BLOCK_STRIDE;
    }
  }

  /** Every camera block the layout provides for lies inside the segment,
      and the next block would start exactly at its end. */
  lemma CameraBlocksFit(i: nat)
    ensures i < MAX_CAMERAS ==> CamOffset(i) + BLOCK_STRIDE <= SHM_BYTES
    ensures CamOffset(MAX_CAMERAS) == SHM_BYTES
  {
    CamOffsetClosed(i);
    CamOffsetClosed(MAX_CAMERAS);
    if i < MAX_CAMERAS {
      assert i * BLOCK_STRIDE <= (MAX_CAMERAS - 1) * BLOCK_STRIDE;
    }
  }

  /** Pixel regions that respect the maximum resolution never overlap each
      other nor the next block's header. */
  lemma PixelRegionsDisjoint(i: nat, j: nat, li: nat, lj: nat)
    requires i < j && li <= MAX_PIXEL_BYTES && lj <= MAX_PIXEL_BYTES
    ensures PixelOffset(i) + li <= CamOffset(j)
    ensures PixelOffset(i) + li <= PixelOffset(j)
  {
    CamOffsetClosed(i);
    CamOffsetClosed(j);
    assert j * BLOCK_STRIDE >= (i + 1) * BLOCK_STRIDE;
  }
}
