/** The bttv entry points that change the shared state in place, each proved to be the corresponding
    function of module Bttv (bttv-driver.c). */
module BttvDriver {
  import opened Bytes
  import opened BttvCrop
  import opened Bttv

  datatype Status = Ok | EBusy | EInval

  class File {
    var resources: set<Resource>
    var doCrop: bool
    var vbiFmtEnd: int
    var width: int
    var height: int

    constructor (doCrop: bool, vbiFmtEnd: int, width: int, height: int)
      ensures Abs() == Handle({}, doCrop, vbiFmtEnd, width, height)
    {
      resources, this.doCrop, this.vbiFmtEnd, this.width, this.height := {}, doCrop, vbiFmtEnd, width, height;
    }

    function Abs(): Handle
      reads this
    {
      Handle(resources, doCrop, vbiFmtEnd, width, height)
    }
  }

  class Board {
    const limits: Limits
    var tvnorm: nat
    var resources: set<Resource>
    var cropStart: int
    var vbiEnd: int
    var crop: seq<BttvCrop.Crop>
    var initWidth: int
    var initHeight: int

    ghost predicate Valid()
      reads this
    {
      DevOk(Abs())
    }

    function Abs(): Dev
      reads this
    {
      Dev(tvnorm, resources, cropStart, vbiEnd, crop, initWidth, initHeight)
    }

    constructor (limits: Limits, norm: nat)
      requires norm < |NORMS|
      ensures Valid() && Abs() == Loaded(norm).dev && this.limits == limits
    {
      this.limits, tvnorm, resources := limits, norm, {};
      crop := [CalcLimits(NORMS[norm].defrect), CalcLimits(NORMS[norm].defrect)];
      vbiEnd := 0;
      cropStart := NORMS[norm].bounds.Bottom();
      initWidth, initHeight := 320, 240;
    }

    method CheckAllocBtres(fh: File, bit: Resource) returns (ok: bool)
      requires Valid()
      modifies this`cropStart, this`vbiEnd, this`resources, fh`resources
      ensures Valid() && (ok, Abs(), fh.Abs()) == CheckAlloc(old(Abs()), old(fh.Abs()), bit)
    {
      if bit in fh.resources {
        return true;
      }
      var xbits := {bit};
      if bit in {VideoRead, VideoStream} {
        xbits := xbits + {VideoRead, VideoStream};
      }
      assert xbits == Exclusive(bit);
      if resources * xbits != {} {
        return false;
      }
      if bit in VIDEO && resources * VIDEO == {} {
        var top := crop[if fh.doCrop then 1 else 0].rect.top;
        if vbiEnd > top {
          return false;
        }
        cropStart := top;
      } else if bit == Vbi {
        if fh.vbiFmtEnd > cropStart {
          return false;
        }
        vbiEnd := fh.vbiFmtEnd;
      }
      fh.resources := fh.resources + {bit};
      resources := resources + {bit};
      return true;
    }

    method FreeBtres(fh: File, bits: set<Resource>)
      requires Valid()
      modifies this`cropStart, this`vbiEnd, this`resources, fh`resources
      ensures Valid() && (Abs(), fh.Abs()) == Free(old(Abs()), old(fh.Abs()), bits)
    {
      fh.resources := fh.resources - bits;
      resources := resources - bits;
      if resources * VIDEO == {} {
        DisclaimVideoLines();
      }
      if Vbi !in resources {
        DisclaimVbiLines();
      }
    }

    method DisclaimVbiLines()
      modifies this`vbiEnd
      ensures vbiEnd == 0
    {
      vbiEnd := 0;
    }

    method DisclaimVideoLines()
      requires Valid()
      modifies this`cropStart
      ensures cropStart == Bounds(Abs()).Bottom()
    {
      cropStart := NORMS[tvnorm].bounds.top + NORMS[tvnorm].bounds.height;
    }

    /** bttv_release, as far as resources go. */
    method Release(fh: File)
      requires Valid()
      modifies this`cropStart, this`vbiEnd, this`resources, fh`resources
      ensures Valid() && (Abs(), fh.Abs()) == Released(old(Abs()), old(fh.Abs()))
    {
      hide NORMS;
      if Overlay in fh.resources {
        FreeBtres(fh, {Overlay});
      }
      assert (Abs(), fh.Abs()) == FreeIfHeld(old(Abs()), old(fh.Abs()), Overlay);
      if VideoStream in fh.resources {
        FreeBtres(fh, {VideoStream});
      }
      if VideoRead in fh.resources {
        FreeBtres(fh, {VideoRead});
      }
      if Vbi in fh.resources {
        FreeBtres(fh, {Vbi});
      }
    }

    method SetTvnorm(norm: nat) returns (rc: Status)
      requires Valid()
      modifies this`tvnorm, this`crop, this`cropStart
      ensures Valid() && Abs() == SetNorm(old(Abs()), norm)
      ensures rc == if norm < |NORMS| then Ok else EInval
    {
      if norm >= |NORMS| {
        return EInval;
      }
      if NORMS[tvnorm] != NORMS[norm] {
        crop := crop[0 := CalcLimits(NORMS[norm].defrect)];
        crop := crop[1 := crop[0]];
        if resources * VIDEO == {} {
          cropStart := NORMS[norm].bounds.top + NORMS[norm].bounds.height;
        }
      }
      tvnorm := norm;
      return Ok;
    }

    /** bttv_s_crop, once the request type and the priority have been checked. */
    method SCrop(fh: File, r: Rect) returns (rc: Status)
      requires Valid() && LimitsOk(limits)
      modifies this`crop, this`initWidth, this`initHeight, fh`doCrop, fh`width, fh`height
      ensures Valid() && (rc == Ok, Abs(), fh.Abs()) == SetCrop(limits, old(Abs()), old(fh.Abs()), r)
      ensures rc != Ok ==> rc == EBusy
    {
      hide NORMS, RoundDown, NormOk;
      if resources * VIDEO != {} {
        return EBusy;
      }
      var b := NORMS[tvnorm].bounds;
      var right, bottom := b.left + b.width, b.top + b.height;
      var bTop := Max(b.top, vbiEnd);
      if bTop + 32 >= bottom {
        return EBusy;
      }
      var left := Clamp(r.left, b.left, right - 48);
      left := Min(left, limits.maxHdelay);
      var width := Clamp(r.width, 48, right - left);
      var top := Clamp(r.top, bTop, bottom - 32);
      top := RoundDown(top + 1, 2);
      var height := Clamp(r.height, 32, bottom - top);
      height := RoundDown(height + 1, 2);
      var c := CalcLimits(Rect(left, top, width, height));
      assert c == RequestedCrop(limits, b, vbiEnd, r);
      NormsAreOk(tvnorm);
      RequestedCropIsOk(limits, NORMS[tvnorm], vbiEnd, r);
      crop := crop[1 := c];
      fh.doCrop := true;
      if fh.width < c.minWidth {
        fh.width := c.minWidth;
        initWidth := c.minWidth;
      } else if fh.width > c.maxWidth {
        fh.width := c.maxWidth;
        initWidth := c.maxWidth;
      }
      if fh.height < c.minHeight {
        fh.height := c.minHeight;
        initHeight := c.minHeight;
      } else if fh.height > c.maxHeight {
        fh.height := c.maxHeight;
        initHeight := c.maxHeight;
      }
      return Ok;
    }

    /** bttv_crop_adjust on the window in use. */
    method CropAdjust(k: nat, width: int, height: int, single: bool)
      requires Valid() && k < 2
      modifies this`crop
      ensures |crop| == 2
      ensures crop == old(crop)[k := Adjusted(limits, old(crop)[k], Bounds(Abs()), width, height, single)]
    {
      hide NORMS;
      var b := NORMS[tvnorm].bounds;
      var c := crop[k];
      var rect := c.rect;
      var frameHeight := if single then height * 2 else height;
      if width < c.minWidth {
        rect := rect.(width := width * 16);
      } else if width > c.maxWidth {
        rect := rect.(width := width);
        var maxLeft := Min(b.left + b.width - width, limits.maxHdelay);
        if rect.left > maxLeft {
          rect := rect.(left := maxLeft);
        }
      }
      if height < c.minHeight {
        rect := rect.(height := height * 16);
      } else if frameHeight > c.maxHeight {
        rect := rect.(height := RoundDown(frameHeight + 1, 2));
        var maxTop := b.top + b.height - rect.height;
        if rect.top > maxTop {
          rect := rect.(top := maxTop);
        }
      }
      crop := crop[k := CalcLimits(rect)];
    }

    method LimitScaledSize(fh: File, q: Request, adjustSize: bool, adjustCrop: bool)
      returns (rc: Status, width: int, height: int)
      requires Valid() && RequestOk(q)
      modifies this`crop
      ensures Valid()
      ensures match LimitSize(limits, old(Abs()), fh.Abs(), q, adjustSize, adjustCrop)
              case Busy => rc == EBusy && Abs() == old(Abs())
              case Invalid => rc == EInval && Abs() == old(Abs())
              case Sized(w, h, d) => rc == Ok && width == w && height == h && Abs() == d
    {
      hide NORMS, Adjusted, RoundDown, Clamp;
      var b := NORMS[tvnorm].bounds;
      var k := if fh.doCrop then 1 else 0;
      var c := crop[k];
      width, height := q.width, q.height;
      var minWidth, minHeight, maxWidth, maxHeight;
      var moves := fh.doCrop && adjustSize && adjustCrop && resources * VIDEO == {};
      if moves {
        minWidth, minHeight := 48, 32;
        maxWidth, maxHeight := Min(b.width, limits.maxHactive), b.height;
        if vbiEnd > b.top {
          maxHeight := maxHeight - (vbiEnd - b.top);
          if minHeight > maxHeight {
            return EBusy, width, height;
          }
        }
      } else {
        if vbiEnd > c.rect.top {
          return EBusy, width, height;
        }
        minWidth, minHeight, maxWidth, maxHeight := c.minWidth, c.minHeight, c.maxWidth, c.maxHeight;
      }
      minWidth := RoundDown(minWidth + q.unit - 1, q.unit);
      maxWidth := RoundDown(maxWidth, q.unit);
      if q.single {
        maxHeight := maxHeight / 2;
      }
      if adjustSize {
        width := Clamp(width, minWidth, maxWidth);
        height := Clamp(height, minHeight, maxHeight);
        width := RoundDown(width + q.bias, q.unit);
        if moves {
          CropAdjust(k, width, height, q.single);
          if vbiEnd > crop[k].rect.top {
            crop := crop[k := crop[k].(rect := crop[k].rect.(top := vbiEnd))];
          }
        }
      } else if width < minWidth || height < minHeight || width > maxWidth || height > maxHeight
                || !Aligned(width, q.unit) {
        return EInval, width, height;
      }
      return Ok, width, height;
    }

    /** bttv_s_fmt_vid_cap, once bttv_switch_type has agreed. */
    method SFmtVidCap(fh: File, width: int, height: int, single: bool) returns (rc: Status)
      requires Valid()
      modifies this`crop, this`initWidth, this`initHeight, fh`width, fh`height
      ensures Valid()
      ensures (rc == Ok, Abs(), fh.Abs()) == SetFormat(limits, old(Abs()), old(fh.Abs()), width, height, single)
    {
      hide LimitSize;
      var w, h;
      rc, w, h := LimitScaledSize(fh, Pixels(width, height, single), true, false);
      TryKeepsDevice(limits, old(Abs()), fh.Abs(), width, height, single);
      if rc != Ok {
        return;
      }
      var w2, h2;
      rc, w2, h2 := LimitScaledSize(fh, Pixels(w, h, single), true, true);
      if rc != Ok {
        return;
      }
      fh.width, fh.height := w, h;
      initWidth, initHeight := w, h;
    }

    // -------------------------------------------------------------- all requests

    ghost function Whole(files: map<nat, File>): Sys
      reads this, files.Values
    {
      Sys(Abs(), Handles(files))
    }

    /** Resources taken or given back through an open file. */
    method ServeResources(files: map<nat, File>, e: Event)
      requires Valid() && LimitsOk(limits) && Separate(files)
      requires (e.Acquire? || e.FreeBits?) && e.id in files
      modifies this, files.Values
      ensures Valid() && Whole(files) == Step(limits, old(Whole(files)), e)
    {
      hide NORMS, CheckAlloc, Free;
      var fh := files[e.id];
      match e {
        case Acquire(_, bit) => var _ := CheckAllocBtres(fh, bit);
        case FreeBits(_, bits) => if bits <= fh.resources { FreeBtres(fh, bits); }
      }
      assert Handles(files) == old(Handles(files))[e.id := fh.Abs()];
    }

    method ServeClose(files: map<nat, File>, id: nat) returns (open: map<nat, File>)
      requires Valid() && LimitsOk(limits) && Separate(files) && id in files
      modifies this, files.Values
      ensures Valid() && Separate(open) && open.Values <= files.Values
      ensures Whole(open) == Step(limits, old(Whole(files)), Close(id))
    {
      hide NORMS, Released;
      Release(files[id]);
      open := files - {id};
      assert Handles(open) == old(Handles(files)) - {id};
    }

    /** A request about formats and windows through an open file. */
    method ServeGeometry(files: map<nat, File>, e: Event)
      requires Valid() && LimitsOk(limits) && Separate(files)
      requires (e.SetVbiFormat? || e.Crop? || e.Size? || e.Format?) && e.id in files
      modifies this, files.Values
      ensures Valid() && Whole(files) == Step(limits, old(Whole(files)), e)
    {
      hide NORMS, SetCrop, LimitSize, SetFormat;
      var fh := files[e.id];
      match e {
        case SetVbiFormat(_, vbiFmtEnd) => fh.vbiFmtEnd := vbiFmtEnd;
        case Crop(_, r) => var _ := SCrop(fh, r);
        case Size(_, q, adjustSize, adjustCrop) =>
          if RequestOk(q) {
            var _, _, _ := LimitScaledSize(fh, q, adjustSize, adjustCrop);
          }
        case Format(_, width, height, single) => var _ := SFmtVidCap(fh, width, height, single);
      }
      assert Handles(files) == old(Handles(files))[e.id := fh.Abs()];
    }

    method OnRequest(files: map<nat, File>, e: Event) returns (open: map<nat, File>)
      requires Valid() && LimitsOk(limits) && Separate(files)
      modifies this, files.Values
      ensures Valid() && Separate(open) && fresh(open.Values - files.Values)
      ensures Whole(open) == Step(limits, old(Whole(files)), e)
    {
      hide NORMS;
      open := files;
      if e.Open? {
        if e.id !in files {
          var fh := new File(e.doCrop, e.vbiFmtEnd, initWidth, initHeight);
          open := files[e.id := fh];
          assert Handles(open) == old(Handles(files))[e.id := fh.Abs()];
        }
      } else if e.ChangeNorm? {
        var _ := SetTvnorm(e.norm);
      } else if e.id in files {
        if e.Close? {
          open := ServeClose(files, e.id);
        } else if e.Acquire? || e.FreeBits? {
          ServeResources(files, e);
        } else {
          ServeGeometry(files, e);
        }
      }
    }

    method OnRequests(files: map<nat, File>, events: seq<Event>) returns (open: map<nat, File>)
      requires Valid() && LimitsOk(limits) && Separate(files)
      modifies this, files.Values
      ensures Valid() && Separate(open) && fresh(open.Values - files.Values)
      ensures Whole(open) == Run(limits, old(Whole(files)), events)
    {
      hide NORMS, Step;
      open := files;
      ghost var s := Whole(files);
      for i := 0 to |events|
        invariant Valid() && Separate(open) && fresh(open.Values - files.Values)
        invariant Whole(open) == Run(limits, s, events[..i])
      {
        RunPrefix(limits, s, events, i);
        open := OnRequest(open, events[i]);
      }
      assert events[..|events|] == events;
    }
  }

  lemma TryKeepsDevice(l: Limits, d: Dev, h: Handle, width: int, height: int, single: bool)
    requires DevOk(d)
    ensures var r := LimitSize(l, d, h, Pixels(width, height, single), true, false); r.Sized? ==> r.dev == d
  {
  }

  ghost function Handles(files: map<nat, File>): map<nat, Handle>
    reads files.Values
  {
    map i | i in files :: files[i].Abs()
  }

  /** Each open file has its own bttv_fh. */
  ghost predicate Separate(files: map<nat, File>) {
    forall i, j :: i in files && j in files && i != j ==> files[i] != files[j]
  }

  /** The driver from load through any requests on any number of files: masks stay partitioned, and
      the lines split and the windows good under the conditions that decide it. */
  method LoadAndServe(limits: Limits, norm: nat, events: seq<Event>) returns (board: Board, open: map<nat, File>)
    requires norm < |NORMS| && LimitsOk(limits)
    ensures Sys(board.Abs(), Handles(open)) == Run(limits, Loaded(norm), events)
    ensures Separate(open) && Partitioned(board.Whole(open))
    ensures AllClear(limits, Loaded(norm), events) ==> LinesApart(board.Abs())
    ensures AllNormsFit(limits, Loaded(norm), events) ==> LinesSplit(board.Abs())
    ensures AllHarmless(limits, Loaded(norm), events) ==> WindowsOk(board.Abs())
  {
    hide NORMS, Run, LinesApart, LinesSplit, Partitioned, WindowsOk, AllHarmless, AllNormsFit, AllClear;
    board := new Board(limits, norm);
    open := map[];
    assert board.Whole(open) == Loaded(norm);
    open := board.OnRequests(open, events);
    RunKeepsPartition(limits, norm, events);
    assert events[..|events|] == events;
    if AllClear(limits, Loaded(norm), events) {
      ClearPrefixApart(limits, norm, events, |events|);
    }
    if AllNormsFit(limits, Loaded(norm), events) {
      FittingPrefixSplits(limits, norm, events, |events|);
    }
    if AllHarmless(limits, Loaded(norm), events) {
      HarmlessPrefixOk(limits, norm, events, |events|);
    }
  }
}
