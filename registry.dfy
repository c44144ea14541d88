/** The camera frame registry `prepare_frames` builds: which role label each
    camera block gets, and which bytes of the segment its pixel view covers. */
module Registry {
  import opened Bytes
  import opened Layout
  import opened Wrappers

  /** The number of elements of an array of the given shape. */
  function Size(shape: seq<nat>): nat
  {
    if shape == [] then 1 else shape[0] * Size(shape[1..])
  }

  /** A zero-copy `uint8` view of shape `(height, width, channels)` starting at `offset`. */
  datatype FrameView = FrameView(offset: nat, width: u32, height: u32, channels: u32)
  {
    function Shape(): seq<nat>
    {
      [height as nat, width as nat, channels as nat]
    }

    /** How many bytes of the segment the view covers. */
    function Length(): nat
    {
      Size(Shape())
    }
  }

  /** A view covers `w * h * chan` bytes, the `pix_bytes` its buffer is made of. */
  lemma LengthIsProduct(v: FrameView)
    ensures v.Length() == v.width * v.height * v.channels
  {
    var h, w, c := v.height as nat, v.width as nat, v.channels as nat;
    assert Size([c]) == c by {
      assert [c][1..] == [];
    }
    assert Size([w, c]) == w * c by {
      assert [w, c][1..] == [c];
    }
    assert Size([h, w, c]) == h * (w * c) by {
      assert [h, w, c][1..] == [w, c];
    }
  }

  /** What `prepare_frames` returns: `frames` keyed by label, and `active`. */
  datatype Frames = Frames(views: map<string, FrameView>, active: seq<u32>)

  /** Why `prepare_frames` raises: a camera header (`struct.error`) or a pixel
      view (`OverflowError` from the ctypes array type or `ValueError` from
      `from_buffer`) runs past the end of the segment. */
  datatype Fault = HeaderPastEnd(camera: nat) | ViewPastEnd(camera: nat)

  /** The roles `label_iter` yields: those of `order` whose flag is set, in
      order (`zip` stops at the shorter of the two). */
  function EnabledRoles(order: seq<string>, flags: seq<u32>): (roles: seq<string>)
    ensures |roles| <= |order|
    ensures forall r :: r in roles ==> r in order
  {
    if order == [] || flags == [] then []
    else (if flags[0] != 0 then [order[0]] else []) + EnabledRoles(order[1..], flags[1..])
  }

  /** How many of the first `j` flags are set. */
  function SetBefore(flags: seq<u32>, j: nat): nat
    requires j <= |flags|
  {
    if j == 0 then 0 else SetBefore(flags, j - 1) + (if flags[j - 1] != 0 then 1 else 0)
  }

  function Min(a: nat, b: nat): nat
  {
    if a <= b then a else b
  }

  /** The k-th label `label_iter` yields is the k-th role whose flag is set,
      and it yields exactly as many labels as there are set flags. */
  lemma {:induction false} EnabledRolesAt(order: seq<string>, flags: seq<u32>, j: nat)
    requires j < Min(|order|, |flags|) && flags[j] != 0
    ensures SetBefore(flags, j) < |EnabledRoles(order, flags)|
    ensures EnabledRoles(order, flags)[SetBefore(flags, j)] == order[j]
  {
    var head: seq<string> := if flags[0] != 0 then [order[0]] else [];
    var rest := EnabledRoles(order[1..], flags[1..]);
    assert EnabledRoles(order, flags) == head + rest;
    if j > 0 {
      EnabledRolesAt(order[1..], flags[1..], j - 1);
      SetBeforeTail(flags, j);
    }
  }

  lemma {:induction false} EnabledRolesCount(order: seq<string>, flags: seq<u32>)
    ensures |EnabledRoles(order, flags)| == SetBefore(flags, Min(|order|, |flags|))
  {
    if order != [] && flags != [] {
      EnabledRolesCount(order[1..], flags[1..]);
      SetBeforeTail(flags, Min(|order|, |flags|));
    }
  }

  /** Counting from the second flag on counts one less exactly when the first is set. */
  lemma {:induction false} SetBeforeTail(flags: seq<u32>, j: nat)
    requires 0 < j <= |flags|
    ensures SetBefore(flags, j) == (if flags[0] != 0 then 1 else 0) + SetBefore(flags[1..], j - 1)
  {
    if j > 1 {
      SetBeforeTail(flags, j - 1);
    }
  }

  /** No element occurs twice. */
  predicate Distinct(s: seq<string>)
  {
    forall i, j :: 0 <= i < j < |s| ==> s[i] != s[j]
  }

  /** Distinct roles give distinct labels. */
  lemma {:induction false} EnabledRolesDistinct(order: seq<string>, flags: seq<u32>)
    requires Distinct(order)
    ensures Distinct(EnabledRoles(order, flags))
  {
    if order != [] && flags != [] {
      var rest := EnabledRoles(order[1..], flags[1..]);
      EnabledRolesDistinct(order[1..], flags[1..]);
      assert order[0] !in order[1..];
      assert order[0] !in rest;
      var roles := EnabledRoles(order, flags);
      if flags[0] != 0 {
        assert roles == [order[0]] + rest;
        forall i, j | 0 <= i < j < |roles| ensures roles[i] != roles[j] {
          assert roles[j] == rest[j - 1];
          if i > 0 {
            assert roles[i] == rest[i - 1];
          }
        }
      } else {
        assert roles == rest;
      }
    }
  }

  function Digit(d: nat): (c: char)
    requires d < 10
    ensures '0' <= c <= '9'
  {
    (('0' as int) + d) as char
  }

  /** `str(n)` for a natural number. */
  function Decimal(n: nat): (s: string)
    ensures |s| >= 1 && (n >= 10 <==> |s| >= 2)
    ensures forall k :: 0 <= k < |s| ==> '0' <= s[k] <= '9'
  {
    if n < 10 then [Digit(n)] else Decimal(n / 10) + [Digit(n % 10)]
  }

  /** Different numbers print differently. */
  lemma {:induction false} DecimalInjective(a: nat, b: nat)
    requires Decimal(a) == Decimal(b)
    ensures a == b
  {
    if a >= 10 && b >= 10 {
      var da, db := Decimal(a), Decimal(b);
      assert da[|da| - 1] == Digit(a % 10) && db[|db| - 1] == Digit(b % 10);
      assert da[..|da| - 1] == Decimal(a / 10);
      assert db[..|db| - 1] == Decimal(b / 10);
      DecimalInjective(a / 10, b / 10);
    } else {
      assert Decimal(a)[0] == Decimal(b)[0];
    }
  }

  /** The label camera `i` gets: the next enabled role, or `f"cam{i}"` once they run out. */
  function CameraLabel(flags: seq<u32>, i: nat): string
  {
    var roles := EnabledRoles(ORDER, flags);
    if i < |roles| then roles[i] else "cam" + Decimal(i)
  }

  /** No two cameras get the same label, so no view in `frames` replaces another. */
  lemma CameraLabelsDistinct(flags: seq<u32>, i: nat, j: nat)
    requires i != j
    ensures CameraLabel(flags, i) != CameraLabel(flags, j)
  {
    LayoutAssumptionsHold();
    var roles := EnabledRoles(ORDER, flags);
    EnabledRolesDistinct(ORDER, flags);
    var li, lj := CameraLabel(flags, i), CameraLabel(flags, j);
    if i >= |roles| && j >= |roles| {
      if li == lj {
        assert li[3..] == Decimal(i) && lj[3..] == Decimal(j);
        DecimalInjective(i, j);
      }
    } else if i < |roles| && j >= |roles| {
      assert roles[i] in ORDER;
      assert li[0] != lj[0];
    } else if i >= |roles| && j < |roles| {
      assert roles[j] in ORDER;
      assert li[0] != lj[0];
    }
  }

  /** The camera count in the global header (`n_cam` of `<IIffffff`). */
  function CameraCount(s: seq<byte>): u32
    requires |s| >= G_HDR
  {
    U32At(s, WORD)
  }

  /** Camera `i`'s `<IIII` header lies inside the segment. */
  predicate HeaderFits(s: seq<byte>, i: nat)
  {
    CamOffset(i) + C_HDR <= |s|
  }

  /** The view camera `i`'s header declares. */
  function View(s: seq<byte>, i: nat): (v: FrameView)
    requires HeaderFits(s, i)
    ensures v.offset == PixelOffset(i)
  {
    var off := CamOffset(i);
    FrameView(PixelOffset(i), U32At(s, off + WORD), U32At(s, off + 2 * WORD), U32At(s, off + 3 * WORD))
  }

  /** Camera `i`'s header and declared pixels both lie inside the segment. */
  predicate ViewFits(s: seq<byte>, i: nat)
  {
    HeaderFits(s, i) && PixelOffset(i) + View(s, i).Length() <= |s|
  }

  /** In a segment of the layout's size only the first `MAX_CAMERAS` headers fit. */
  lemma HeaderFitsIff(s: seq<byte>, i: nat)
    requires |s| == SHM_BYTES
    ensures HeaderFits(s, i) <==> i < MAX_CAMERAS
  {
    CamOffsetClosed(i);
    CameraBlocksFit(i);
    if i >= MAX_CAMERAS {
      assert i * BLOCK_STRIDE >= MAX_CAMERAS * BLOCK_STRIDE;
    }
  }

  /** A camera inside the layout whose declared size respects the maximum
      resolution always fits, in a pixel region disjoint from every later block. */
  lemma ViewFitsWithinMaxima(s: seq<byte>, i: nat)
    requires |s| == SHM_BYTES && i < MAX_CAMERAS
    requires HeaderFits(s, i) && View(s, i).Length() <= MAX_PIXEL_BYTES
    ensures ViewFits(s, i)
    ensures forall j :: i < j ==> View(s, i).offset + View(s, i).Length() <= CamOffset(j)
  {
    CameraBlocksFit(i);
    forall j | i < j
      ensures View(s, i).offset + View(s, i).Length() <= CamOffset(j)
    {
      PixelRegionsDisjoint(i, j, View(s, i).Length(), 0);
    }
  }

  /** One pass of `prepare_frames`'s loop for camera `i`: the view its header
      declares, or why it could not be bound. */
  function Camera(s: seq<byte>, i: nat): Result<FrameView, Fault>
  {
    if !HeaderFits(s, i) then Err(HeaderPastEnd(i))
    else if !ViewFits(s, i) then Err(ViewPastEnd(i))
    else Ok(View(s, i))
  }

  /** What `prepare_frames`'s loop has produced after its first `n` passes,
      when pass `i` yields `cam(i)`: the `frames` map so far, or the fault of
      the first camera that could not be bound. */
  function Collect(cam: nat -> Result<FrameView, Fault>, flags: seq<u32>, n: nat): Result<map<string, FrameView>, Fault>
  {
    if n == 0 then Ok(map[])
    else
      var prev := Collect(cam, flags, n - 1);
      if prev.Err? then prev
      else if cam(n - 1).Err? then Err(cam(n - 1).error)
      else Ok(prev.value[CameraLabel(flags, n - 1) := cam(n - 1).value])
  }

  /** The passes of the loop over the segment contents `s`. */
  function CameraOf(s: seq<byte>): nat -> Result<FrameView, Fault>
  {
    (i: nat) => Camera(s, i)
  }

  /** The loop's result after `n` passes over the segment contents `s`. */
  function Bind(s: seq<byte>, flags: seq<u32>, n: nat): Result<map<string, FrameView>, Fault>
  {
    Collect(CameraOf(s), flags, n)
  }

  /** `prepare_frames(shm, HP)` on the segment contents `s` and the camera flags `active`. */
  function Prepare(s: seq<byte>, active: seq<u32>): Result<Frames, Fault>
    requires |s| >= G_HDR
  {
    var b := Bind(s, active, CameraCount(s));
    if b.Ok? then Ok(Frames(b.value, active)) else Err(b.error)
  }

  /** Once a pass has failed, later passes keep that fault. */
  lemma {:induction false} CollectErrSticks(cam: nat -> Result<FrameView, Fault>, flags: seq<u32>, k: nat, n: nat)
    requires k <= n && Collect(cam, flags, k).Err?
    ensures Collect(cam, flags, n) == Collect(cam, flags, k)
  {
    if k < n {
      CollectErrSticks(cam, flags, k, n - 1);
    }
  }

  /** The loop succeeds exactly when every pass does. */
  lemma {:induction false} CollectOkIff(cam: nat -> Result<FrameView, Fault>, flags: seq<u32>, n: nat)
    ensures Collect(cam, flags, n).Ok? <==> forall i :: 0 <= i < n ==> cam(i).Ok?
  {
    if n > 0 {
      CollectOkIff(cam, flags, n - 1);
      assert (forall i :: 0 <= i < n ==> cam(i).Ok?) <==>
        (forall i :: 0 <= i < n - 1 ==> cam(i).Ok?) && cam(n - 1).Ok?;
    }
  }

  /** A fault is the fault of the first pass that failed. */
  lemma {:induction false} CollectErr(cam: nat -> Result<FrameView, Fault>, flags: seq<u32>, n: nat) returns (c: nat)
    requires Collect(cam, flags, n).Err?
    ensures c < n && cam(c).Err? && Collect(cam, flags, n).error == cam(c).error
    ensures forall i :: 0 <= i < c ==> cam(i).Ok?
  {
    if Collect(cam, flags, n - 1).Err? {
      c := CollectErr(cam, flags, n - 1);
    } else {
      CollectOkIff(cam, flags, n - 1);
      c := n - 1;
    }
  }

  /** `frames` has exactly one key per pass: its label. */
  lemma {:induction false} CollectKeys(cam: nat -> Result<FrameView, Fault>, flags: seq<u32>, n: nat)
    requires Collect(cam, flags, n).Ok?
    ensures Collect(cam, flags, n).value.Keys == (set i | 0 <= i < n :: CameraLabel(flags, i))
  {
    if n > 0 {
      CollectKeys(cam, flags, n - 1);
      assert (set i | 0 <= i < n :: CameraLabel(flags, i))
          == (set i | 0 <= i < n - 1 :: CameraLabel(flags, i)) + {CameraLabel(flags, n - 1)};
    }
  }

  /** No later pass replaces an earlier one's view: under the label of pass
      `i` `frames` holds the view pass `i` bound. */
  lemma {:induction false} CollectAt(cam: nat -> Result<FrameView, Fault>, flags: seq<u32>, n: nat, i: nat)
    requires Collect(cam, flags, n).Ok? && i < n
    ensures cam(i).Ok?
    ensures CameraLabel(flags, i) in Collect(cam, flags, n).value
    ensures Collect(cam, flags, n).value[CameraLabel(flags, i)] == cam(i).value
  {
    if i < n - 1 {
      CollectAt(cam, flags, n - 1, i);
      CameraLabelsDistinct(flags, i, n - 1);
    }
  }

  /** Once a camera has failed, later passes keep that fault. */
  lemma BindErrSticks(s: seq<byte>, flags: seq<u32>, k: nat, n: nat)
    requires k <= n && Bind(s, flags, k).Err?
    ensures Bind(s, flags, n) == Bind(s, flags, k)
  {
    CollectErrSticks(CameraOf(s), flags, k, n);
  }

  /** The loop succeeds exactly when every camera's header and pixels fit. */
  lemma BindOkIff(s: seq<byte>, flags: seq<u32>, n: nat)
    ensures Bind(s, flags, n).Ok? <==> forall i :: 0 <= i < n ==> ViewFits(s, i)
  {
    CollectOkIff(CameraOf(s), flags, n);
    assert forall i: nat :: CameraOf(s)(i).Ok? <==> ViewFits(s, i);
  }

  /** A fault names the first camera that does not fit, and says whether its
      header or its pixels run past the end. */
  lemma BindErr(s: seq<byte>, flags: seq<u32>, n: nat)
    requires Bind(s, flags, n).Err?
    ensures var c := Bind(s, flags, n).error.camera;
      && c < n && !ViewFits(s, c)
      && (Bind(s, flags, n).error.HeaderPastEnd? <==> !HeaderFits(s, c))
      && forall i :: 0 <= i < c ==> ViewFits(s, i)
  {
    var c := CollectErr(CameraOf(s), flags, n);
    assert Camera(s, c).error.camera == c;
    assert forall i: nat :: CameraOf(s)(i).Ok? <==> ViewFits(s, i);
  }

  /** `frames` has exactly one key per camera: its label. */
  lemma BindKeys(s: seq<byte>, flags: seq<u32>, n: nat)
    requires Bind(s, flags, n).Ok?
    ensures Bind(s, flags, n).value.Keys == (set i | 0 <= i < n :: CameraLabel(flags, i))
  {
    CollectKeys(CameraOf(s), flags, n);
  }

  /** No later camera replaces an earlier one's view: under camera `i`'s label
      `frames` holds the view camera `i`'s header declares. */
  lemma BindAt(s: seq<byte>, flags: seq<u32>, n: nat, i: nat)
    requires Bind(s, flags, n).Ok? && i < n
    ensures ViewFits(s, i)
    ensures CameraLabel(flags, i) in Bind(s, flags, n).value
    ensures Bind(s, flags, n).value[CameraLabel(flags, i)] == View(s, i)
  {
    CollectAt(CameraOf(s), flags, n, i);
  }
}
