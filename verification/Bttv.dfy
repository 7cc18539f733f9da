/** Capture resources of the bttv driver, shared by any number of file handles, and the split of the
    scan lines between video and VBI capture (bttv-driver.c). RESOURCE_* bits are the elements of
    Resource, a mask is a set of them. */
module Bttv {
  import opened Bytes
  import opened BttvCrop

  datatype Resource = Overlay | VideoStream | VideoRead | Vbi

  const VIDEO: set<Resource> := {VideoRead, VideoStream, Overlay}

  /** struct bttv: cropStart is the first line claimed for video, vbiEnd the end of the VBI lines;
      initWidth and initHeight are what a new handle starts with. */
  datatype Dev = Dev(norm: nat, resources: set<Resource>, cropStart: int, vbiEnd: int, crop: seq<Crop>,
                     initWidth: int, initHeight: int)

  /** struct bttv_fh */
  datatype Handle = Handle(resources: set<Resource>, doCrop: bool, vbiFmtEnd: int, width: int, height: int)

  function Bounds(d: Dev): Rect
    requires d.norm < |NORMS|
  {
    NORMS[d.norm].bounds
  }

  predicate DevOk(d: Dev) {
    d.norm < |NORMS| && |d.crop| == 2
  }

  function CropIndex(h: Handle): nat {
    if h.doCrop then 1 else 0
  }

  // ---------------------------------------------------------------- resources

  /** Resources that exclude each other with the given one. */
  function Exclusive(bit: Resource): set<Resource> {
    if bit == VideoRead || bit == VideoStream then {VideoRead, VideoStream} else {bit}
  }

  function Grabbed(d: Dev, h: Handle, bit: Resource): (bool, Dev, Handle) {
    (true, d.(resources := d.resources + {bit}), h.(resources := h.resources + {bit}))
  }

  /** check_alloc_btres */
  function CheckAlloc(d: Dev, h: Handle, bit: Resource): (bool, Dev, Handle)
    requires DevOk(d)
  {
    if bit in h.resources then (true, d, h)
    else if d.resources * Exclusive(bit) != {} then (false, d, h)
    else if bit in VIDEO && d.resources * VIDEO == {} then
      var top := d.crop[CropIndex(h)].rect.top;
      if d.vbiEnd > top then (false, d, h) else Grabbed(d.(cropStart := top), h, bit)
    else if bit == Vbi then
      if h.vbiFmtEnd > d.cropStart then (false, d, h) else Grabbed(d.(vbiEnd := h.vbiFmtEnd), h, bit)
    else Grabbed(d, h, bit)
  }

  /** free_btres with disclaim_video_lines and disclaim_vbi_lines */
  function Free(d: Dev, h: Handle, bits: set<Resource>): (Dev, Handle)
    requires DevOk(d)
  {
    var left := d.resources - bits;
    (d.(resources := left,
        cropStart := if left * VIDEO == {} then Bounds(d).Bottom() else d.cropStart,
        vbiEnd := if Vbi !in left then 0 else d.vbiEnd),
     h.(resources := h.resources - bits))
  }

  function FreeIfHeld(d: Dev, h: Handle, bit: Resource): (Dev, Handle)
    requires DevOk(d)
  {
    if bit in h.resources then Free(d, h, {bit}) else (d, h)
  }

  /** bttv_release: overlay, streaming, read and VBI in this order */
  function Released(d: Dev, h: Handle): (Dev, Handle)
    requires DevOk(d)
  {
    var (d1, h1) := FreeIfHeld(d, h, Overlay);
    var (d2, h2) := FreeIfHeld(d1, h1, VideoStream);
    var (d3, h3) := FreeIfHeld(d2, h2, VideoRead);
    FreeIfHeld(d3, h3, Vbi)
  }

  // ---------------------------------------------------------------- geometry requests

  /** set_tvnorm */
  function SetNorm(d: Dev, norm: nat): Dev
    requires DevOk(d)
  {
    if norm >= |NORMS| then d
    else if NORMS[norm] == NORMS[d.norm] then d.(norm := norm)
    else
      var c := CalcLimits(NORMS[norm].defrect);
      d.(norm := norm, crop := [c, c],
         cropStart := if d.resources * VIDEO == {} then NORMS[norm].bounds.Bottom() else d.cropStart)
  }

  /** bttv_s_crop; the flag is false when it answers EBUSY */
  function SetCrop(l: Limits, d: Dev, h: Handle, r: Rect): (bool, Dev, Handle)
    requires DevOk(d)
  {
    if d.resources * VIDEO != {} || !CropFits(Bounds(d), d.vbiEnd) then (false, d, h)
    else
      var c := RequestedCrop(l, Bounds(d), d.vbiEnd, r);
      var width, height := Clamp(h.width, c.minWidth, c.maxWidth), Clamp(h.height, c.minHeight, c.maxHeight);
      (true,
       d.(crop := d.crop[1 := c],
          initWidth := if width != h.width then width else d.initWidth,
          initHeight := if height != h.height then height else d.initHeight),
       h.(doCrop := true, width := width, height := height))
  }

  datatype Sizing = Busy | Invalid | Sized(width: int, height: int, dev: Dev)

  /** May limit_scaled_size move the window to suit the size? */
  predicate MovesWindow(d: Dev, h: Handle, adjustSize: bool, adjustCrop: bool) {
    h.doCrop && adjustSize && adjustCrop && d.resources * VIDEO == {}
  }

  /** limit_scaled_size */
  function LimitSize(l: Limits, d: Dev, h: Handle, q: Request, adjustSize: bool, adjustCrop: bool): Sizing
    requires DevOk(d) && RequestOk(q)
  {
    var b, c := Bounds(d), d.crop[CropIndex(h)];
    if MovesWindow(d, h, adjustSize, adjustCrop) then
      if d.vbiEnd > b.top && VideoLines(b, d.vbiEnd) < 32 then Busy
      else
        var (width, height, c') := AdjustedSize(l, c, b, d.vbiEnd, q);
        Sized(width, height, d.(crop := d.crop[CropIndex(h) := c']))
    else if d.vbiEnd > c.rect.top then Busy
    else if adjustSize then
      Sized(SizedWidth(q, c.minWidth, c.maxWidth), SizedHeight(q, c.minHeight, c.maxHeight), d)
    else if q.width < RoundDown(c.minWidth + q.unit - 1, q.unit) || q.height < c.minHeight
            || q.width > RoundDown(c.maxWidth, q.unit)
            || q.height > (if q.single then c.maxHeight / 2 else c.maxHeight)
            || !Aligned(q.width, q.unit) then Invalid
    else Sized(q.width, q.height, d)
  }

  /** bttv_s_fmt_vid_cap once bttv_switch_type has agreed: the size is fitted to the window, then the
      window to the size. What the second step makes of the size is not used. */
  function SetFormat(l: Limits, d: Dev, h: Handle, width: int, height: int, single: bool): (bool, Dev, Handle)
    requires DevOk(d)
  {
    var fit := LimitSize(l, d, h, Pixels(width, height, single), true, false);
    if !fit.Sized? then (false, d, h)
    else
      var r := LimitSize(l, d, h, Pixels(fit.width, fit.height, single), true, true);
      if !r.Sized? then (false, d, h)
      else
        (true, r.dev.(initWidth := fit.width, initHeight := fit.height),
         h.(width := fit.width, height := fit.height))
  }

  // ---------------------------------------------------------------- runs

  datatype Sys = Sys(dev: Dev, fhs: map<nat, Handle>)

  datatype Event =
    | Open(id: nat, doCrop: bool, vbiFmtEnd: int)
    | Acquire(id: nat, bit: Resource)
    | FreeBits(id: nat, bits: set<Resource>)
    | SetVbiFormat(id: nat, vbiFmtEnd: int)
    | Crop(id: nat, rect: Rect)
    | Size(id: nat, request: Request, adjustSize: bool, adjustCrop: bool)
    | Format(id: nat, width: int, height: int, single: bool)
    | ChangeNorm(norm: nat)
    | Close(id: nat)

  /** bttv_open copies btv->init. */
  function Opened(d: Dev, doCrop: bool, vbiFmtEnd: int): Handle {
    Handle({}, doCrop, vbiFmtEnd, d.initWidth, d.initHeight)
  }

  /** One request to the driver. Handles free only what they hold; requests through handles that are
      not open do not occur. */
  function Step(l: Limits, s: Sys, e: Event): Sys
    requires DevOk(s.dev)
  {
    match e
    case Open(id, doCrop, vbiFmtEnd) =>
      if id in s.fhs then s
      else s.(fhs := s.fhs[id := Opened(s.dev, doCrop, vbiFmtEnd)])
    case ChangeNorm(norm) => s.(dev := SetNorm(s.dev, norm))
    case _ =>
      if e.id !in s.fhs then s
      else
        var h := s.fhs[e.id];
        match e
        case Acquire(id, bit) =>
          var (_, d, h') := CheckAlloc(s.dev, h, bit); Sys(d, s.fhs[id := h'])
        case FreeBits(id, bits) =>
          if bits <= h.resources then var (d, h') := Free(s.dev, h, bits); Sys(d, s.fhs[id := h']) else s
        case SetVbiFormat(id, vbiFmtEnd) => s.(fhs := s.fhs[id := h.(vbiFmtEnd := vbiFmtEnd)])
        case Crop(id, r) =>
          var (_, d, h') := SetCrop(l, s.dev, h, r); Sys(d, s.fhs[id := h'])
        case Size(id, q, adjustSize, adjustCrop) =>
          if !RequestOk(q) then s
          else
            var r := LimitSize(l, s.dev, h, q, adjustSize, adjustCrop);
            if r.Sized? then s.(dev := r.dev) else s
        case Format(id, width, height, single) =>
          var (_, d, h') := SetFormat(l, s.dev, h, width, height, single); Sys(d, s.fhs[id := h'])
        case Close(id) =>
          var (d, _) := Released(s.dev, h); Sys(d, s.fhs - {id})
  }

  lemma StepKeepsDevOk(l: Limits, s: Sys, e: Event)
    requires DevOk(s.dev)
    ensures DevOk(Step(l, s, e).dev)
  {
  }

  function Run(l: Limits, s: Sys, events: seq<Event>): (r: Sys)
    requires DevOk(s.dev)
    ensures DevOk(r.dev)
  {
    if events == [] then s
    else
      var m := Run(l, s, events[..|events| - 1]);
      StepKeepsDevOk(l, m, events[|events| - 1]);
      Step(l, m, events[|events| - 1])
  }

  /** Driver load: default windows, nothing claimed, nobody connected. */
  function Loaded(norm: nat): Sys
    requires norm < |NORMS|
  {
    var c := CalcLimits(NORMS[norm].defrect);
    Sys(Dev(norm, {}, NORMS[norm].bounds.Bottom(), 0, [c, c], 320, 240), map[])
  }

  // ---------------------------------------------------------------- resources are partitioned

  /** The device's mask is the disjoint union of the handles' masks, and reading and streaming
      exclude each other. */
  ghost predicate Partitioned(s: Sys) {
    && (forall i :: i in s.fhs ==> s.fhs[i].resources <= s.dev.resources)
    && (forall r :: r in s.dev.resources ==> exists i :: i in s.fhs && r in s.fhs[i].resources)
    && (forall i, j :: i in s.fhs && j in s.fhs && i != j ==> s.fhs[i].resources !! s.fhs[j].resources)
    && !(VideoRead in s.dev.resources && VideoStream in s.dev.resources)
  }

  /** Everything about the masks that one request may do: the handle id moves from h to h' while the
      device's mask changes by the same resources. */
  ghost predicate Moved(s: Sys, id: nat, h': Handle, d': Dev)
    requires id in s.fhs
  {
    var h := s.fhs[id];
    && d'.resources == (s.dev.resources - h.resources) + h'.resources
    && h'.resources !! (s.dev.resources - h.resources)
    && !(VideoRead in d'.resources && VideoStream in d'.resources)
  }

  lemma MovedKeepsPartition(s: Sys, id: nat, h': Handle, d': Dev)
    requires Partitioned(s) && id in s.fhs && Moved(s, id, h', d')
    ensures Partitioned(Sys(d', s.fhs[id := h']))
  {
    var t := Sys(d', s.fhs[id := h']);
    forall r | r in d'.resources
      ensures exists i :: i in t.fhs && r in t.fhs[i].resources
    {
      if r in h'.resources {
        assert id in t.fhs && r in t.fhs[id].resources;
      } else {
        var i :| i in s.fhs && r in s.fhs[i].resources;
        assert i in t.fhs && r in t.fhs[i].resources;
      }
    }
    forall i | i in s.fhs && i != id
      ensures s.fhs[i].resources <= s.dev.resources - s.fhs[id].resources
    {
    }
  }

  lemma CheckAllocMoves(s: Sys, id: nat, bit: Resource)
    requires DevOk(s.dev) && Partitioned(s) && id in s.fhs
    ensures var (_, d', h') := CheckAlloc(s.dev, s.fhs[id], bit); Moved(s, id, h', d')
  {
    hide NORMS;
    var h, all := s.fhs[id], s.dev.resources;
    assert all == (all - h.resources) + h.resources;
    if bit !in h.resources && all * Exclusive(bit) == {} {
      assert bit in Exclusive(bit);
      assert bit in all ==> bit in all * Exclusive(bit);
      assert all + {bit} == (all - h.resources) + (h.resources + {bit});
      if bit == VideoRead || bit == VideoStream {
        assert VideoRead in all ==> VideoRead in all * Exclusive(bit);
        assert VideoStream in all ==> VideoStream in all * Exclusive(bit);
      }
    }
  }

  predicate NobodyHolds(s: Sys, r: Resource) {
    forall i :: i in s.fhs ==> r !in s.fhs[i].resources
  }

  predicate NoVideoHeld(s: Sys) {
    NobodyHolds(s, VideoRead) && NobodyHolds(s, VideoStream) && NobodyHolds(s, Overlay)
  }

  lemma HeldByNobody(s: Sys, r: Resource)
    requires Partitioned(s)
    ensures r in s.dev.resources <==> !NobodyHolds(s, r)
  {
    if r in s.dev.resources {
      var i :| i in s.fhs && r in s.fhs[i].resources;
    }
  }

  lemma VideoHeldByNobody(s: Sys)
    requires Partitioned(s)
    ensures s.dev.resources * VIDEO == {} <==> NoVideoHeld(s)
  {
    HeldByNobody(s, VideoRead);
    HeldByNobody(s, VideoStream);
    HeldByNobody(s, Overlay);
    assert forall r :: r in s.dev.resources * VIDEO ==> r == VideoRead || r == VideoStream || r == Overlay;
    if s.dev.resources * VIDEO == {} {
      assert forall r :: r in VIDEO ==> r !in s.dev.resources * VIDEO;
    }
  }

  /** The lines that go with a resource are free: for the first video resource the window must start at
      or below the end of the VBI lines, for VBI the lines must end at or above those of video. */
  predicate LinesFree(s: Sys, h: Handle, bit: Resource)
    requires DevOk(s.dev)
  {
    && (bit != Vbi && NoVideoHeld(s) ==> s.dev.vbiEnd <= s.dev.crop[if h.doCrop then 1 else 0].rect.top)
    && (bit == Vbi ==> h.vbiFmtEnd <= s.dev.cropStart)
  }

  /** Told from the handles' masks: a handle gets a resource exactly if it holds it already, or nobody
      holds it (nor, for reading and streaming, the other of the two) and its lines are free. It then
      holds it, and so does the device; a refusal changes nothing. */
  lemma GrantedExactly(s: Sys, id: nat, bit: Resource)
    requires DevOk(s.dev) && Partitioned(s) && id in s.fhs
    ensures var h := s.fhs[id];
            var (ok, d', h') := CheckAlloc(s.dev, h, bit);
            && (ok <==> || bit in h.resources
                        || (&& NobodyHolds(s, bit)
                            && (bit == VideoRead ==> NobodyHolds(s, VideoStream))
                            && (bit == VideoStream ==> NobodyHolds(s, VideoRead))
                            && LinesFree(s, h, bit)))
            && (ok ==> h' == h.(resources := h.resources + {bit}) && d'.resources == s.dev.resources + {bit})
            && (!ok ==> d' == s.dev && h' == h)
  {
    hide NORMS, Partitioned, NobodyHolds;
    var h, all := s.fhs[id], s.dev.resources;
    VideoHeldByNobody(s);
    HeldByNobody(s, bit);
    HeldByNobody(s, VideoRead);
    HeldByNobody(s, VideoStream);
    hide NoVideoHeld;
    HeldIsHeld(s, id, bit);
    assert all * Exclusive(bit) == {} <==>
           bit !in all && (bit == VideoRead ==> VideoStream !in all) && (bit == VideoStream ==> VideoRead !in all)
    by {
      ExcludedByNone(all, bit);
    }
    hide Exclusive;
    if bit in h.resources {
      assert h.resources + {bit} == h.resources && all + {bit} == all;
    }
  }

  lemma HeldIsHeld(s: Sys, id: nat, bit: Resource)
    requires Partitioned(s) && id in s.fhs
    ensures bit in s.fhs[id].resources ==> bit in s.dev.resources
  {
  }

  lemma ExcludedByNone(all: set<Resource>, bit: Resource)
    ensures all * Exclusive(bit) == {} <==>
            bit !in all && (bit == VideoRead ==> VideoStream !in all) && (bit == VideoStream ==> VideoRead !in all)
  {
    if all * Exclusive(bit) == {} {
      assert forall r :: r in Exclusive(bit) ==> r !in all * Exclusive(bit);
    }
  }

  /** What is claimed is what was asked for, seen from the next request: after the first video resource
      VBI is granted exactly down to the top of that handle's window, and after VBI the first video
      resource exactly from the end of those lines on. */
  lemma ClaimsExclude(d: Dev, h: Handle, g: Handle, video: Resource)
    requires DevOk(d) && video != Vbi && d.resources == {} && h.resources == {} && g.resources == {}
    ensures var (ok, d', _) := CheckAlloc(d, h, video);
            ok ==> (CheckAlloc(d', g, Vbi).0 <==> g.vbiFmtEnd <= d.crop[if h.doCrop then 1 else 0].rect.top)
    ensures var (ok, d', _) := CheckAlloc(d, g, Vbi);
            ok ==> (CheckAlloc(d', h, video).0 <==> g.vbiFmtEnd <= d.crop[if h.doCrop then 1 else 0].rect.top)
  {
    hide NORMS;
    assert {} + {video} == {video} && {} + {Vbi} == {Vbi};
    assert Vbi !in {video} * Exclusive(Vbi) && {video} * Exclusive(Vbi) == {};
    assert {Vbi} * Exclusive(video) == {} && {Vbi} * VIDEO == {};
  }

  /** The lines a handle claims for VBI are those of the format it set last. */
  lemma VbiFormatIsClaimed(l: Limits, s: Sys, id: nat, end: int)
    requires DevOk(s.dev) && id in s.fhs && Vbi !in s.fhs[id].resources
    ensures var s1 := Step(l, s, SetVbiFormat(id, end));
            var s2 := Step(l, s1, Acquire(id, Vbi));
            && s1.dev == s.dev
            && s2.dev.vbiEnd == if Vbi !in s.dev.resources && end <= s.dev.cropStart then end else s.dev.vbiEnd
  {
    hide NORMS;
    assert s.dev.resources * Exclusive(Vbi) == {} <==> Vbi !in s.dev.resources by {
      ExcludedByNone(s.dev.resources, Vbi);
    }
  }

  lemma FreeMoves(s: Sys, id: nat, bits: set<Resource>)
    requires DevOk(s.dev) && Partitioned(s) && id in s.fhs && bits <= s.fhs[id].resources
    ensures var (d', h') := Free(s.dev, s.fhs[id], bits);
            && Moved(s, id, h', d')
            && h' == s.fhs[id].(resources := s.fhs[id].resources - bits)
            && d'.resources == s.dev.resources - bits
  {
    var h := s.fhs[id];
    assert s.dev.resources - bits == (s.dev.resources - h.resources) + (h.resources - bits);
  }

  /** Closing empties the handle's mask and takes exactly that mask from the device. */
  lemma ReleasedMoves(s: Sys, id: nat)
    requires DevOk(s.dev) && Partitioned(s) && id in s.fhs
    ensures var (d', h') := Released(s.dev, s.fhs[id]);
            && h'.resources == {} && Moved(s, id, h', d')
            && d'.resources == s.dev.resources - s.fhs[id].resources
  {
    var h := s.fhs[id];
    var (d', h') := Released(s.dev, h);
    forall r: Resource
      ensures r !in h'.resources
    {
      match r case Overlay => case VideoStream => case VideoRead => case Vbi =>
    }
    forall r: Resource
      ensures r in d'.resources <==> r in s.dev.resources - h.resources
    {
      match r case Overlay => case VideoStream => case VideoRead => case Vbi =>
    }
  }

  lemma CloseKeepsPartition(s: Sys, id: nat)
    requires DevOk(s.dev) && Partitioned(s) && id in s.fhs
    ensures var (d', _) := Released(s.dev, s.fhs[id]); Partitioned(Sys(d', s.fhs - {id}))
  {
    hide Released;
    var (d', h') := Released(s.dev, s.fhs[id]);
    ReleasedMoves(s, id);
    MovedKeepsPartition(s, id, h', d');
    var t, u := Sys(d', s.fhs[id := h']), Sys(d', s.fhs - {id});
    forall r | r in d'.resources
      ensures exists i :: i in u.fhs && r in u.fhs[i].resources
    {
      var i :| i in t.fhs && r in t.fhs[i].resources;
      assert i in u.fhs && r in u.fhs[i].resources;
    }
  }

  /** Requests that do not touch the masks. */
  lemma SameMasks(s: Sys, id: nat, h': Handle, d': Dev)
    requires Partitioned(s) && id in s.fhs
    requires d'.resources == s.dev.resources && h'.resources == s.fhs[id].resources
    ensures Partitioned(Sys(d', s.fhs[id := h']))
  {
    assert s.dev.resources == (s.dev.resources - h'.resources) + h'.resources;
    MovedKeepsPartition(s, id, h', d');
  }

  lemma OpenKeepsPartition(s: Sys, id: nat, h: Handle)
    requires Partitioned(s) && id !in s.fhs && h.resources == {}
    ensures Partitioned(s.(fhs := s.fhs[id := h]))
  {
    var t := s.(fhs := s.fhs[id := h]);
    forall r | r in s.dev.resources
      ensures exists i :: i in t.fhs && r in t.fhs[i].resources
    {
      var i :| i in s.fhs && r in s.fhs[i].resources;
      assert i in t.fhs && r in t.fhs[i].resources;
    }
  }

  lemma StepKeepsPartition(l: Limits, s: Sys, e: Event)
    requires DevOk(s.dev) && Partitioned(s)
    ensures Partitioned(Step(l, s, e))
  {
    hide CheckAlloc, Free, Released, Partitioned, Moved;
    if e.Open? {
      if e.id !in s.fhs {
        OpenKeepsPartition(s, e.id, Opened(s.dev, e.doCrop, e.vbiFmtEnd));
      }
    } else if e.ChangeNorm? {
      SameDevMask(s, SetNorm(s.dev, e.norm));
    } else if e.id in s.fhs {
      var h := s.fhs[e.id];
      match e {
        case Acquire(id, bit) =>
          CheckAllocMoves(s, id, bit);
          var (_, d', h') := CheckAlloc(s.dev, h, bit);
          MovedKeepsPartition(s, id, h', d');
        case FreeBits(id, bits) =>
          if bits <= h.resources {
            FreeMoves(s, id, bits);
            var (d', h') := Free(s.dev, h, bits);
            MovedKeepsPartition(s, id, h', d');
          }
        case SetVbiFormat(id, vbiFmtEnd) => SameMasks(s, id, h.(vbiFmtEnd := vbiFmtEnd), s.dev);
        case Crop(id, r) =>
          var (_, d', h') := SetCrop(l, s.dev, h, r);
          SameMasks(s, id, h', d');
        case Size(id, q, adjustSize, adjustCrop) => SameDevMask(s, Step(l, s, e).dev);
        case Format(id, width, height, single) =>
          var (_, d', h') := SetFormat(l, s.dev, h, width, height, single);
          SameMasks(s, id, h', d');
        case Close(id) => CloseKeepsPartition(s, id);
      }
    }
  }

  lemma SameDevMask(s: Sys, d': Dev)
    requires Partitioned(s) && d'.resources == s.dev.resources
    ensures Partitioned(Sys(d', s.fhs))
  {
  }

  /** Every run, by any number of handles, norm changes included. */
  lemma {:induction false} RunKeepsPartition(l: Limits, norm: nat, events: seq<Event>)
    requires norm < |NORMS|
    ensures Partitioned(Run(l, Loaded(norm), events))
    decreases |events|
  {
    if events != [] {
      RunKeepsPartition(l, norm, events[..|events| - 1]);
      StepKeepsPartition(l, Run(l, Loaded(norm), events[..|events| - 1]), events[|events| - 1]);
    }
  }

  // ---------------------------------------------------------------- scan lines are split

  /** Video and VBI do not claim the same line; what is not in use is fully disclaimed. */
  ghost predicate LinesApart(d: Dev) {
    && DevOk(d)
    && d.vbiEnd <= d.cropStart && 0 <= d.cropStart
    && (Vbi !in d.resources ==> d.vbiEnd == 0)
    && (d.resources * VIDEO == {} ==> d.cropStart == Bounds(d).Bottom())
    && (forall k :: 0 <= k < 2 ==> Bounds(d).top <= d.crop[k].rect.top <= Bounds(d).Bottom())
  }

  /** And all that is claimed lies in the picture of the current norm. */
  ghost predicate LinesSplit(d: Dev) {
    LinesApart(d) && d.cropStart <= Bounds(d).Bottom()
  }

  /** No request but a norm change moves claimed lines out of the picture. */
  ghost predicate KeepsLines(d: Dev, d': Dev) {
    LinesApart(d') && (LinesSplit(d) ==> LinesSplit(d'))
  }

  /** Taking a resource and the lines that go with it. */
  lemma ClaimKeepsLines(d: Dev, bit: Resource, cropStart: int, vbiEnd: int)
    requires LinesApart(d) && vbiEnd <= cropStart && 0 <= cropStart
    requires bit != Vbi ==> vbiEnd == d.vbiEnd
    requires bit in VIDEO || cropStart == d.cropStart
    requires d.cropStart <= Bounds(d).Bottom() ==> cropStart <= Bounds(d).Bottom()
    ensures KeepsLines(d, d.(cropStart := cropStart, vbiEnd := vbiEnd, resources := d.resources + {bit}))
  {
    hide NORMS;
    var g := d.resources + {bit};
    if bit in VIDEO {
      assert bit in g * VIDEO;
    } else {
      assert g * VIDEO == d.resources * VIDEO;
    }
  }

  lemma CheckAllocKeepsLines(d: Dev, h: Handle, bit: Resource)
    requires LinesApart(d)
    ensures KeepsLines(d, CheckAlloc(d, h, bit).1)
  {
    NormsAreOk(d.norm);
    hide NORMS, CropOk;
    assert KeepsLines(d, d);
    var (ok, d', h') := CheckAlloc(d, h, bit);
    if ok && bit !in h.resources {
      ClaimKeepsLines(d, bit, d'.cropStart, d'.vbiEnd);
    }
    hide KeepsLines;
  }

  /** Giving the bits back leaves no VBI lines below the picture with video free. */
  predicate FreesClear(d: Dev, bits: set<Resource>)
    requires DevOk(d)
  {
    var left := d.resources - bits;
    left * VIDEO == {} && Vbi in left ==> d.vbiEnd <= Bounds(d).Bottom()
  }

  lemma FreeKeepsApartExactly(d: Dev, h: Handle, bits: set<Resource>)
    requires LinesApart(d)
    ensures var d' := Free(d, h, bits).0;
            && (FreesClear(d, bits) ==> KeepsLines(d, d'))
            && (d'.vbiEnd <= d'.cropStart <==> FreesClear(d, bits))
            && (LinesSplit(d) ==> FreesClear(d, bits))
  {
    NormsAreOk(d.norm);
    hide NORMS, CropOk;
    assert d.resources * VIDEO == {} ==> (d.resources - bits) * VIDEO == {};
  }

  /** Closing a handle frees what it holds, however many steps that takes. */
  lemma ReleasedIsFree(d: Dev, h: Handle)
    requires LinesApart(d)
    ensures Released(d, h).0 == Free(d, h, h.resources).0
  {
    hide NORMS;
    var (d', _) := Released(d, h);
    var left := d.resources - h.resources;
    forall r: Resource
      ensures r in d'.resources <==> r in left
    {
      match r case Overlay => case VideoStream => case VideoRead => case Vbi =>
    }
    assert d'.resources == left;
  }

  lemma SetCropKeepsLines(l: Limits, d: Dev, h: Handle, r: Rect)
    requires LimitsOk(l) && LinesApart(d)
    ensures KeepsLines(d, SetCrop(l, d, h, r).1)
  {
    hide NORMS, RequestedCrop;
    NormsAreOk(d.norm);
    if CropFits(Bounds(d), d.vbiEnd) {
      RequestedCropIsOk(l, NORMS[d.norm], d.vbiEnd, r);
    }
  }

  lemma LimitSizeKeepsLines(l: Limits, d: Dev, h: Handle, q: Request, adjustSize: bool, adjustCrop: bool)
    requires LimitsOk(l) && LinesApart(d) && RequestOk(q)
    ensures var r := LimitSize(l, d, h, q, adjustSize, adjustCrop); r.Sized? ==> KeepsLines(d, r.dev)
  {
    hide NORMS, AdjustedSize, SizedWidth, SizedHeight, RoundDown, CropOk;
    NormsAreOk(d.norm);
    if MovesWindow(d, h, adjustSize, adjustCrop) && VideoLines(Bounds(d), d.vbiEnd) >= 32 {
      AdjustedTopInBounds(l, NORMS[d.norm], d.crop[CropIndex(h)], d.vbiEnd, q);
    }
  }

  lemma SetFormatKeepsLines(l: Limits, d: Dev, h: Handle, width: int, height: int, single: bool)
    requires LimitsOk(l) && LinesApart(d)
    ensures KeepsLines(d, SetFormat(l, d, h, width, height, single).1)
  {
    hide NORMS, LimitSize;
    var fit := LimitSize(l, d, h, Pixels(width, height, single), true, false);
    if fit.Sized? {
      LimitSizeKeepsLines(l, d, h, Pixels(fit.width, fit.height, single), true, true);
    }
  }

  /** The norm has the same geometry, or what is claimed lies within its bounds. */
  predicate NormFits(d: Dev, norm: nat)
    requires DevOk(d) && norm < |NORMS|
  {
    || NORMS[norm] == NORMS[d.norm]
    || (if d.resources * VIDEO == {} then d.vbiEnd else d.cropStart) <= NORMS[norm].bounds.Bottom()
  }

  /** The norm has the same geometry, or video keeps its lines, or the VBI lines are in its picture. */
  predicate NormClear(d: Dev, norm: nat)
    requires DevOk(d) && norm < |NORMS|
  {
    || NORMS[norm] == NORMS[d.norm] || d.resources * VIDEO != {}
    || d.vbiEnd <= NORMS[norm].bounds.Bottom()
  }

  /** Exactly when a norm change keeps the lines apart. */
  lemma SetNormKeepsApartExactly(d: Dev, norm: nat)
    requires LinesApart(d) && norm < |NORMS|
    ensures var d' := SetNorm(d, norm);
            && (NormClear(d, norm) ==> LinesApart(d'))
            && (d'.vbiEnd <= d'.cropStart <==> NormClear(d, norm))
  {
    NormsAreOk(norm);
    hide NORMS, CropOk;
  }

  /** And exactly when what is claimed is in the picture of the new norm, too. */
  lemma SetNormKeepsLinesExactly(d: Dev, norm: nat)
    requires LinesSplit(d) && norm < |NORMS|
    ensures LinesSplit(SetNorm(d, norm)) <==> NormFits(d, norm)
  {
    NormsAreOk(norm);
    hide NORMS, CropOk;
  }

  /** The failing family is reachable: VBI lines claimed under PAL that NTSC does not have. */
  lemma NormChangeCanOverlap(l: Limits)
    ensures var s := Run(l, Loaded(0), [Open(0, false, 600), Acquire(0, Vbi), ChangeNorm(1)]);
            s.dev.vbiEnd > s.dev.cropStart
  {
    var es := [Open(0, false, 600), Acquire(0, Vbi), ChangeNorm(1)];
    RunPrefix(l, Loaded(0), es, 0);
    RunPrefix(l, Loaded(0), es, 1);
    RunPrefix(l, Loaded(0), es, 2);
    hide Run;
    assert es[..3] == es;
    assert Run(l, Loaded(0), es[..2]).dev.vbiEnd == 600;
  }

  /** What has to hold before a request for the lines to be apart after it: norm changes with video
      free and the end of video capture must not find VBI lines below the picture. */
  predicate Clear(s: Sys, e: Event)
    requires DevOk(s.dev)
  {
    match e
    case ChangeNorm(norm) => norm < |NORMS| ==> NormClear(s.dev, norm)
    case FreeBits(id, bits) => id in s.fhs && bits <= s.fhs[id].resources ==> FreesClear(s.dev, bits)
    case Close(id) => id in s.fhs ==> FreesClear(s.dev, s.fhs[id].resources)
    case _ => true
  }

  /** Requests that neither change the norm nor give resources back. */
  lemma OthersKeepLines(l: Limits, s: Sys, e: Event)
    requires LimitsOk(l) && LinesApart(s.dev) && !e.ChangeNorm? && !e.FreeBits? && !e.Close?
    ensures KeepsLines(s.dev, Step(l, s, e).dev)
  {
    hide CheckAlloc, SetCrop, LimitSize, SetFormat, NORMS;
    assert KeepsLines(s.dev, s.dev);
    if !e.Open? && e.id in s.fhs {
      var h := s.fhs[e.id];
      hide KeepsLines;
      match e {
        case Acquire(_, bit) => CheckAllocKeepsLines(s.dev, h, bit);
        case SetVbiFormat(_, _) =>
        case Crop(_, r) => SetCropKeepsLines(l, s.dev, h, r);
        case Size(_, q, adjustSize, adjustCrop) =>
          if RequestOk(q) {
            LimitSizeKeepsLines(l, s.dev, h, q, adjustSize, adjustCrop);
          }
        case Format(_, width, height, single) => SetFormatKeepsLines(l, s.dev, h, width, height, single);
      }
    }
  }

  lemma StepKeepsApartExactly(l: Limits, s: Sys, e: Event)
    requires LimitsOk(l) && LinesApart(s.dev)
    ensures var d' := Step(l, s, e).dev;
            && (Clear(s, e) ==> LinesApart(d') && (!e.ChangeNorm? ==> KeepsLines(s.dev, d')))
            && (d'.vbiEnd <= d'.cropStart <==> Clear(s, e))
  {
    hide Free, Released, NORMS, NormClear, FreesClear;
    if e.ChangeNorm? {
      if e.norm < |NORMS| {
        SetNormKeepsApartExactly(s.dev, e.norm);
      }
    } else if (e.FreeBits? || e.Close?) && e.id in s.fhs {
      var h := s.fhs[e.id];
      ReleasedIsFree(s.dev, h);
      FreeKeepsApartExactly(s.dev, h, if e.Close? then h.resources else e.bits);
    } else if !e.FreeBits? && !e.Close? {
      OthersKeepLines(l, s, e);
      hide Step;
    }
  }

  /** A request that is a norm change finds the norm fitting. */
  predicate NormsFit(s: Sys, e: Event)
    requires DevOk(s.dev)
  {
    e.ChangeNorm? && e.norm < |NORMS| ==> NormFits(s.dev, e.norm)
  }

  lemma SplitIsClear(s: Sys, e: Event)
    requires LinesSplit(s.dev) && !e.ChangeNorm?
    ensures Clear(s, e)
  {
    hide NORMS;
  }

  lemma StepKeepsLinesExactly(l: Limits, s: Sys, e: Event)
    requires LimitsOk(l) && LinesSplit(s.dev)
    ensures LinesSplit(Step(l, s, e).dev) <==> NormsFit(s, e)
  {
    hide NORMS, NormFits, Clear;
    if e.ChangeNorm? {
      if e.norm < |NORMS| {
        SetNormKeepsLinesExactly(s.dev, e.norm);
      }
    } else {
      SplitIsClear(s, e);
      StepKeepsApartExactly(l, s, e);
      hide Step;
    }
  }

  lemma RunPrefix(l: Limits, s: Sys, events: seq<Event>, i: nat)
    requires DevOk(s.dev) && i < |events|
    ensures Run(l, s, events[..i + 1]) == Step(l, Run(l, s, events[..i]), events[i])
    ensures Run(l, s, events[..0]) == s
  {
    hide Step;
    assert events[..i + 1][..i] == events[..i];
  }

  ghost predicate AllNormsFit(l: Limits, s: Sys, events: seq<Event>)
    requires DevOk(s.dev)
  {
    forall i :: 0 <= i < |events| ==> NormsFit(Run(l, s, events[..i]), events[i])
  }

  lemma {:induction false} FittingPrefixSplits(l: Limits, norm: nat, events: seq<Event>, i: nat)
    requires LimitsOk(l) && norm < |NORMS| && i <= |events| && AllNormsFit(l, Loaded(norm), events)
    ensures LinesSplit(Run(l, Loaded(norm), events[..i]).dev)
    decreases i
  {
    hide Step, LinesSplit, NORMS, NormsFit;
    LoadedSplitsLines(norm);
    if i > 0 {
      FittingPrefixSplits(l, norm, events, i - 1);
      RunPrefix(l, Loaded(norm), events, i - 1);
      StepKeepsLinesExactly(l, Run(l, Loaded(norm), events[..i - 1]), events[i - 1]);
    }
  }

  ghost predicate AllClear(l: Limits, s: Sys, events: seq<Event>)
    requires DevOk(s.dev)
  {
    forall i :: 0 <= i < |events| ==> Clear(Run(l, s, events[..i]), events[i])
  }

  /** Video and VBI claim no common line. */
  predicate NoOverlap(d: Dev) {
    d.vbiEnd <= d.cropStart
  }

  lemma {:induction false} ClearPrefixApart(l: Limits, norm: nat, events: seq<Event>, i: nat)
    requires LimitsOk(l) && norm < |NORMS| && i <= |events|
    requires || AllClear(l, Loaded(norm), events)
             || forall k :: 0 <= k <= |events| ==> NoOverlap(Run(l, Loaded(norm), events[..k]).dev)
    ensures LinesApart(Run(l, Loaded(norm), events[..i]).dev)
    decreases i
  {
    hide Step, NORMS, Clear;
    LoadedSplitsLines(norm);
    if i > 0 {
      ClearPrefixApart(l, norm, events, i - 1);
      RunPrefix(l, Loaded(norm), events, i - 1);
      StepKeepsApartExactly(l, Run(l, Loaded(norm), events[..i - 1]), events[i - 1]);
      hide LinesApart;
    }
  }

  /** From driver load, whatever the handles do, video and VBI never claim the same line exactly if no
      norm change with video free, and no end of video capture, finds VBI lines below the picture. */
  lemma RunKeepsApartExactly(l: Limits, norm: nat, events: seq<Event>)
    requires LimitsOk(l) && norm < |NORMS|
    ensures (forall i :: 0 <= i <= |events| ==> NoOverlap(Run(l, Loaded(norm), events[..i]).dev))
            <==> AllClear(l, Loaded(norm), events)
  {
    hide Step, Run, NORMS, Clear;
    var s := Loaded(norm);
    if AllClear(l, s, events) {
      forall i | 0 <= i <= |events| ensures NoOverlap(Run(l, s, events[..i]).dev) {
        ClearPrefixApart(l, norm, events, i);
      }
    } else if forall i :: 0 <= i <= |events| ==> NoOverlap(Run(l, s, events[..i]).dev) {
      forall i | 0 <= i < |events| ensures Clear(Run(l, s, events[..i]), events[i]) {
        RunPrefix(l, s, events, i);
        assert NoOverlap(Run(l, s, events[..i + 1]).dev);
        ClearPrefixApart(l, norm, events, i);
        StepKeepsApartExactly(l, Run(l, s, events[..i]), events[i]);
      }
    }
  }

  /** The other failing family is reachable, too: video low in the PAL picture survives a change to
      NTSC, VBI lines are claimed above it but below the new picture, and video ends. */
  lemma StopCanOverlap()
    ensures var s := Run(Limits(1022, 1020), Loaded(0),
                         [Open(0, true, 550), Event.Crop(0, Rect(186, 580, 400, 32)), Acquire(0, VideoStream),
                          ChangeNorm(1), Acquire(0, Vbi), FreeBits(0, {VideoStream})]);
            s.dev.vbiEnd > s.dev.cropStart
  {
    var l, s := Limits(1022, 1020), Loaded(0);
    var es := [Open(0, true, 550), Event.Crop(0, Rect(186, 580, 400, 32)), Acquire(0, VideoStream),
               ChangeNorm(1), Acquire(0, Vbi), FreeBits(0, {VideoStream})];
    hide Run, Step;
    RunPrefix(l, s, es, 0);
    RunPrefix(l, s, es, 1);
    RunPrefix(l, s, es, 2);
    RunPrefix(l, s, es, 3);
    RunPrefix(l, s, es, 4);
    RunPrefix(l, s, es, 5);
    assert es[..6] == es;
    LowWindow(l);
    VideoStops(l, Run(l, s, es[..2]));
  }

  predicate HasLowWindow(s: Sys) {
    && s.fhs.Keys == {0} && DevOk(s.dev) && s.dev.crop[0].rect.top == 46 && s.dev.crop[1].rect.top == 580 && s.dev.vbiEnd == 0 && s.dev.norm == 0
    && s.dev.resources == {} && 0 in s.fhs
    && s.fhs[0].doCrop && s.fhs[0].resources == {} && s.fhs[0].vbiFmtEnd == 550
  }

  lemma LowWindow(l: Limits)
    requires l == Limits(1022, 1020)
    ensures HasLowWindow(Step(l, Step(l, Loaded(0), Open(0, true, 550)), Event.Crop(0, Rect(186, 580, 400, 32))))
  {
  }

  lemma VideoStops(l: Limits, s: Sys)
    requires HasLowWindow(s)
    ensures var s3 := Step(l, s, Acquire(0, VideoStream));
            var s5 := Step(l, Step(l, s3, ChangeNorm(1)), Acquire(0, Vbi));
            var d := Step(l, s5, FreeBits(0, {VideoStream})).dev;
            d.vbiEnd > d.cropStart
  {
    var s3 := Step(l, s, Acquire(0, VideoStream));
    assert s3.dev.resources == {VideoStream} && s3.dev.cropStart == 580 && s3.fhs[0].resources == {VideoStream};
    var s4 := Step(l, s3, ChangeNorm(1));
    assert s4.dev.resources == {VideoStream} && s4.dev.cropStart == 580 && s4.dev.norm == 1;
    var s5 := Step(l, s4, Acquire(0, Vbi));
    assert s5.dev.vbiEnd == 550 && s5.dev.resources == {VideoStream, Vbi} && s5.fhs[0].resources == {VideoStream, Vbi};
    assert s5.dev.resources - {VideoStream} == {Vbi};
  }

  // ---------------------------------------------------------------- several handles capturing

  predicate Captures(h: Handle) {
    VideoRead in h.resources || VideoStream in h.resources || Overlay in h.resources
  }

  function TopOf(d: Dev, h: Handle): int
    requires DevOk(d)
  {
    d.crop[CropIndex(h)].rect.top
  }

  /** No handle captures video from lines that carry VBI. */
  ghost predicate CapturesApart(s: Sys) {
    DevOk(s.dev) && forall i :: i in s.fhs && Captures(s.fhs[i]) ==> s.dev.vbiEnd <= TopOf(s.dev, s.fhs[i])
  }

  /** What the driver does not test: only the first capture is tested against the VBI lines, and VBI
      only against the first capture. */
  ghost predicate CapturesClear(s: Sys, id: nat, bit: Resource)
    requires DevOk(s.dev) && id in s.fhs
  {
    if bit == Vbi
    then forall i :: i in s.fhs && Captures(s.fhs[i]) ==> s.fhs[id].vbiFmtEnd <= TopOf(s.dev, s.fhs[i])
    else NoVideoHeld(s) || s.dev.vbiEnd <= TopOf(s.dev, s.fhs[id])
  }

  /** An acquire keeps every capture apart from the VBI lines exactly if it is refused, changes nothing
      or finds what the driver does not test. */
  lemma AcquireKeepsCapturesExactly(l: Limits, s: Sys, id: nat, bit: Resource)
    requires DevOk(s.dev) && Partitioned(s) && id in s.fhs && CapturesApart(s)
    ensures CapturesApart(Step(l, s, Acquire(id, bit))) <==>
            (CheckAlloc(s.dev, s.fhs[id], bit).0 && bit !in s.fhs[id].resources ==> CapturesClear(s, id, bit))
  {
    hide Partitioned, NobodyHolds, NORMS, CapturesApart, CapturesClear;
    var h := s.fhs[id];
    var (ok, d', h') := CheckAlloc(s.dev, h, bit);
    GrantedExactly(s, id, bit);
    AcquireGeometry(s.dev, h, bit);
    assert Step(l, s, Acquire(id, bit)) == Sys(d', s.fhs[id := h']);
    hide CheckAlloc, Step;
    if ok && bit !in h.resources {
      CapturesAfter(s, id, bit, d', h');
    } else {
      assert h' == h && s.fhs[id := h'] == s.fhs && d' == s.dev;
    }
  }

  lemma AcquireGeometry(d: Dev, h: Handle, bit: Resource)
    requires DevOk(d)
    ensures var (ok, d', h') := CheckAlloc(d, h, bit);
            && d'.crop == d.crop && d'.norm == d.norm
            && (ok && bit !in h.resources ==> d'.vbiEnd == if bit == Vbi then h.vbiFmtEnd else d.vbiEnd)
            && (bit in h.resources ==> d' == d && h' == h)
  {
    hide NORMS;
  }

  lemma CapturesAfter(s: Sys, id: nat, bit: Resource, d': Dev, h': Handle)
    requires CapturesApart(s) && id in s.fhs && LinesFree(s, s.fhs[id], bit)
    requires h' == s.fhs[id].(resources := s.fhs[id].resources + {bit})
    requires d'.crop == s.dev.crop && d'.norm == s.dev.norm
    requires d'.vbiEnd == if bit == Vbi then s.fhs[id].vbiFmtEnd else s.dev.vbiEnd
    ensures CapturesApart(Sys(d', s.fhs[id := h'])) <==> CapturesClear(s, id, bit)
  {
    hide NoVideoHeld, NORMS;
    var t := Sys(d', s.fhs[id := h']);
    assert forall i :: i in s.fhs ==> TopOf(d', t.fhs[i]) == TopOf(s.dev, s.fhs[i]);
    assert forall i :: i in s.fhs && i != id ==> t.fhs[i] == s.fhs[i];
    if bit == Vbi {
      assert forall i :: i in s.fhs ==> Captures(t.fhs[i]) == Captures(s.fhs[i]);
    } else {
      assert t.fhs[id] == h' && Captures(h');
    }
  }

  /** It is reachable: one handle captures low in the picture, VBI is claimed above that, and a second
      handle starts an overlay from the default window. */
  lemma SecondCaptureCanOverlap()
    ensures var s := Run(Limits(1022, 1020), Loaded(0),
                         [Open(0, true, 550), Event.Crop(0, Rect(186, 580, 400, 32)), Open(1, false, 0),
                          Acquire(0, VideoStream), Acquire(0, Vbi), Acquire(1, Overlay)]);
            1 in s.fhs && Captures(s.fhs[1]) && TopOf(s.dev, s.fhs[1]) < s.dev.vbiEnd
  {
    var l, s := Limits(1022, 1020), Loaded(0);
    var es := [Open(0, true, 550), Event.Crop(0, Rect(186, 580, 400, 32)), Open(1, false, 0),
               Acquire(0, VideoStream), Acquire(0, Vbi), Acquire(1, Overlay)];
    hide Run, Step;
    RunPrefix(l, s, es, 0);
    RunPrefix(l, s, es, 1);
    RunPrefix(l, s, es, 2);
    RunPrefix(l, s, es, 3);
    RunPrefix(l, s, es, 4);
    RunPrefix(l, s, es, 5);
    assert es[..6] == es;
    LowWindow(l);
    SecondCapture(l, Run(l, s, es[..2]));
  }

  lemma SecondCapture(l: Limits, s: Sys)
    requires HasLowWindow(s)
    ensures var s4 := Step(l, Step(l, s, Open(1, false, 0)), Acquire(0, VideoStream));
            var s6 := Step(l, Step(l, s4, Acquire(0, Vbi)), Acquire(1, Overlay));
            1 in s6.fhs && Captures(s6.fhs[1]) && TopOf(s6.dev, s6.fhs[1]) < s6.dev.vbiEnd
  {
    hide NORMS;
    var s3 := Step(l, s, Open(1, false, 0));
    assert 1 in s3.fhs && s3.fhs[1].resources == {} && !s3.fhs[1].doCrop && s3.fhs[0] == s.fhs[0] && s3.dev == s.dev;
    var s4 := Step(l, s3, Acquire(0, VideoStream));
    assert s4.dev == s.dev.(resources := {VideoStream}, cropStart := 580) by { assert {} + {VideoStream} == {VideoStream}; }
    assert s4.fhs[0] == s.fhs[0].(resources := {VideoStream}) && s4.fhs[1] == s3.fhs[1];
    var s5 := Step(l, s4, Acquire(0, Vbi));
    assert s5.dev == s4.dev.(resources := {VideoStream, Vbi}, vbiEnd := 550);
    assert s5.fhs[1] == s3.fhs[1];
    var s6 := Step(l, s5, Acquire(1, Overlay));
    assert {VideoStream, Vbi} * Exclusive(Overlay) == {} && VideoStream in {VideoStream, Vbi} * VIDEO;
  }

  /** The lines are split at all times, which includes that claimed lines are in the picture, exactly
      if every norm change finds the geometry the same or the claimed lines within the new bounds. */
  lemma RunKeepsLinesExactly(l: Limits, norm: nat, events: seq<Event>)
    requires LimitsOk(l) && norm < |NORMS|
    ensures (forall i :: 0 <= i <= |events| ==> LinesSplit(Run(l, Loaded(norm), events[..i]).dev))
            <==> AllNormsFit(l, Loaded(norm), events)
  {
    hide Step, Run, LinesSplit, NORMS, NormsFit;
    var s := Loaded(norm);
    if AllNormsFit(l, s, events) {
      forall i | 0 <= i <= |events| ensures LinesSplit(Run(l, s, events[..i]).dev) {
        FittingPrefixSplits(l, norm, events, i);
      }
    } else if forall i :: 0 <= i <= |events| ==> LinesSplit(Run(l, s, events[..i]).dev) {
      forall i | 0 <= i < |events| ensures NormsFit(Run(l, s, events[..i]), events[i]) {
        RunPrefix(l, s, events, i);
        assert LinesSplit(Run(l, s, events[..i + 1]).dev);
        StepKeepsLinesExactly(l, Run(l, s, events[..i]), events[i]);
      }
    }
  }

  lemma StepKeepsGeometry(l: Limits, s: Sys, e: Event)
    requires DevOk(s.dev)
    requires e.ChangeNorm? ==> e.norm >= |NORMS| || NORMS[e.norm] == NORMS[s.dev.norm]
    ensures NORMS[Step(l, s, e).dev.norm] == NORMS[s.dev.norm] && NormsFit(s, e)
  {
    hide NORMS, RequestedCrop, AdjustedSize, SizedWidth, SizedHeight, RoundDown;
  }

  /** In particular every run at a fixed norm keeps the scan lines split. */
  lemma {:induction false} RunKeepsLines(l: Limits, norm: nat, events: seq<Event>)
    requires LimitsOk(l) && norm < |NORMS|
    requires forall e :: e in events && e.ChangeNorm? ==> e.norm >= |NORMS| || NORMS[e.norm] == NORMS[norm]
    ensures LinesSplit(Run(l, Loaded(norm), events).dev)
    ensures NORMS[Run(l, Loaded(norm), events).dev.norm] == NORMS[norm]
    decreases |events|
  {
    hide Step, NORMS, LinesSplit, NormsFit;
    LoadedSplitsLines(norm);
    if events != [] {
      var init := events[..|events| - 1];
      RunKeepsLines(l, norm, init);
      var s := Run(l, Loaded(norm), init);
      StepKeepsGeometry(l, s, events[|events| - 1]);
      StepKeepsLinesExactly(l, s, events[|events| - 1]);
    }
  }

  lemma LoadedSplitsLines(norm: nat)
    requires norm < |NORMS|
    ensures LinesSplit(Loaded(norm).dev)
  {
    NormsAreOk(norm);
    hide NORMS;
  }

  /** Acquiring a resource one does not hold and freeing it again restores the exact prior state. */
  lemma AcquireThenFree(d: Dev, h: Handle, bit: Resource)
    requires LinesApart(d) && bit !in h.resources && CheckAlloc(d, h, bit).0
    ensures var (_, d', h') := CheckAlloc(d, h, bit); Free(d', h', {bit}) == (d, h)
  {
    hide NORMS;
    assert d.resources * Exclusive(bit) == {};
    assert bit in Exclusive(bit);
    assert bit in d.resources ==> bit in d.resources * Exclusive(bit);
    assert d.resources + {bit} - {bit} == d.resources;
    assert h.resources + {bit} - {bit} == h.resources;
  }

  // ---------------------------------------------------------------- windows stay good

  predicate WindowsOk(d: Dev) {
    DevOk(d) && CropOk(d.crop[0], Bounds(d)) && CropOk(d.crop[1], Bounds(d))
  }

  /** Is e an accepted size request that moves the window? */
  predicate Moves(s: Sys, e: Event)
    requires DevOk(s.dev)
  {
    && e.Size? && e.id in s.fhs && RequestOk(e.request)
    && MovesWindow(s.dev, s.fhs[e.id], e.adjustSize, e.adjustCrop)
    && VideoLines(Bounds(s.dev), s.dev.vbiEnd) >= 32
  }

  /** Is e an S_FMT of a single-field image through a window of less than 64 lines? */
  predicate Heightens(s: Sys, e: Event)
    requires DevOk(s.dev)
  {
    && e.Format? && e.id in s.fhs && s.fhs[e.id].doCrop && s.dev.resources * VIDEO == {}
    && s.dev.vbiEnd <= s.dev.crop[1].rect.top && e.single && s.dev.crop[1].rect.height < 64
  }

  /** What has to hold before a request for both windows to be good after it. */
  predicate Harmless(s: Sys, e: Event)
    requires DevOk(s.dev)
  {
    && (Moves(s, e) ==> WindowSurvives(s.dev.crop[1], Bounds(s.dev), s.dev.vbiEnd, e.request))
    && (Heightens(s, e) ==> FieldFits(Bounds(s.dev), s.dev.vbiEnd))
  }

  /** S_FMT for capture is accepted exactly if the window lies below the VBI lines. It leaves both
      windows as they are exactly if it does not have to heighten one, and gives the handle an image
      that the window allows. */
  lemma SetFormatExactly(l: Limits, s: Sys, e: Event)
    requires LimitsOk(l) && WindowsOk(s.dev) && e.Format? && e.id in s.fhs
    ensures var d, h := s.dev, s.fhs[e.id];
            var c := d.crop[CropIndex(h)];
            var (ok, d', h') := SetFormat(l, d, h, e.width, e.height, e.single);
            && (ok <==> d.vbiEnd <= c.rect.top)
            && (d'.crop == d.crop <==> !Heightens(s, e))
            && (WindowsOk(d') <==> (Heightens(s, e) ==> FieldFits(Bounds(d), d.vbiEnd)))
            && (ok ==> 48 <= h'.width <= c.maxWidth && Aligned(h'.width, 4)
                       && FrameHeight(h'.height, e.single) <= c.maxHeight)
  {
    hide NORMS, CropOk, AdjustedSize, SizedWidth, SizedHeight, RoundDown, FieldFits;
    var d, h := s.dev, s.fhs[e.id];
    var c, q := d.crop[CropIndex(h)], Pixels(e.width, e.height, e.single);
    NormsAreOk(d.norm);
    if d.vbiEnd <= c.rect.top {
      TriedSizeExactly(l, NORMS[d.norm], c, d.vbiEnd, q);
      SizedFitsWindow(l, d, h, q, true, false);
    }
  }

  /** Every request leaves both windows good exactly if it is harmless: only size requests that move
      the window and formats that heighten it can spoil it. */
  lemma StepKeepsWindowsExactly(l: Limits, s: Sys, e: Event)
    requires LimitsOk(l) && WindowsOk(s.dev)
    ensures WindowsOk(Step(l, s, e).dev) <==> Harmless(s, e)
  {
    hide NORMS, CropOk, RequestedCrop, AdjustedSize, WindowSurvives, SizedWidth, SizedHeight, RoundDown, FieldFits;
    NormsAreOk(s.dev.norm);
    if e.ChangeNorm? {
      if e.norm < |NORMS| {
        NormsAreOk(e.norm);
      }
    } else if e.Crop? && CropFits(Bounds(s.dev), s.dev.vbiEnd) {
      RequestedCropIsOk(l, NORMS[s.dev.norm], s.dev.vbiEnd, e.rect);
    } else if Moves(s, e) {
      AdjustedSizeExactly(l, NORMS[s.dev.norm], s.dev.crop[1], s.dev.vbiEnd, e.request);
    } else if e.Format? && e.id in s.fhs {
      SetFormatExactly(l, s, e);
      hide SetFormat;
    }
  }

  ghost predicate AllHarmless(l: Limits, s: Sys, events: seq<Event>)
    requires DevOk(s.dev)
  {
    forall i :: 0 <= i < |events| ==> Harmless(Run(l, s, events[..i]), events[i])
  }

  lemma LoadedWindowsOk(norm: nat)
    requires norm < |NORMS|
    ensures WindowsOk(Loaded(norm).dev)
  {
    NormsAreOk(norm);
    hide NORMS;
  }

  lemma {:induction false} HarmlessPrefixOk(l: Limits, norm: nat, events: seq<Event>, i: nat)
    requires LimitsOk(l) && norm < |NORMS| && i <= |events| && AllHarmless(l, Loaded(norm), events)
    ensures WindowsOk(Run(l, Loaded(norm), events[..i]).dev)
    decreases i
  {
    hide Step, WindowsOk, NORMS, Harmless;
    LoadedWindowsOk(norm);
    if i > 0 {
      HarmlessPrefixOk(l, norm, events, i - 1);
      RunPrefix(l, Loaded(norm), events, i - 1);
      StepKeepsWindowsExactly(l, Run(l, Loaded(norm), events[..i - 1]), events[i - 1]);
    }
  }

  /** From driver load both windows are good at all times exactly if every request is harmless in the
      state it meets. */
  lemma RunKeepsWindowsExactly(l: Limits, norm: nat, events: seq<Event>)
    requires LimitsOk(l) && norm < |NORMS|
    ensures (forall i :: 0 <= i <= |events| ==> WindowsOk(Run(l, Loaded(norm), events[..i]).dev))
            <==> AllHarmless(l, Loaded(norm), events)
  {
    hide Step, Run, WindowsOk, NORMS, Harmless;
    var s := Loaded(norm);
    if AllHarmless(l, s, events) {
      forall i | 0 <= i <= |events| ensures WindowsOk(Run(l, s, events[..i]).dev) {
        HarmlessPrefixOk(l, norm, events, i);
      }
    } else if forall i :: 0 <= i <= |events| ==> WindowsOk(Run(l, s, events[..i]).dev) {
      forall i | 0 <= i < |events| ensures Harmless(Run(l, s, events[..i]), events[i]) {
        RunPrefix(l, s, events, i);
        assert WindowsOk(Run(l, s, events[..i + 1]).dev);
        StepKeepsWindowsExactly(l, Run(l, s, events[..i]), events[i]);
      }
    }
  }

  /** PAL after a handle with do_crop has claimed VBI lines down to line 100. */
  const CLAIMED := Sys(Loaded(0).dev.(vbiEnd := 100, resources := {Vbi}), map[0 := Handle({Vbi}, true, 100, 320, 240)])

  lemma VbiClaimed(l: Limits)
    ensures Step(l, Step(l, Loaded(0), Open(0, true, 100)), Acquire(0, Vbi)) == CLAIMED
  {
    var h := Handle({}, true, 100, 320, 240);
    var s := Step(l, Loaded(0), Open(0, true, 100));
    assert s == Loaded(0).(fhs := map[0 := h]);
    assert CheckAlloc(s.dev, h, Vbi) == (true, CLAIMED.dev, CLAIMED.fhs[0]) by {
      assert {} + {Vbi} == {Vbi};
    }
  }

  lemma PushedOut(l: Limits)
    requires l == Limits(1022, 1020)
    ensures var d := Step(l, CLAIMED, Size(0, Request(640, 480, false, 4, 0), true, true)).dev;
            d.crop[1].rect.Bottom() > Bounds(d).Bottom()
  {
  }

  /** The failing family is reachable: VBI lines claimed below the window's top while no video runs,
      then an overlay window (S_FMT, rounding down). The window is pushed down and not shrunk. */
  lemma WindowCanLeaveBounds()
    ensures var q := Request(640, 480, false, 4, 0);
            var s := Run(Limits(1022, 1020), Loaded(0), [Open(0, true, 100), Acquire(0, Vbi), Size(0, q, true, true)]);
            s.dev.crop[1].rect.Bottom() > Bounds(s.dev).Bottom()
  {
    var l, s := Limits(1022, 1020), Loaded(0);
    var e1, e2, e3 := Open(0, true, 100), Acquire(0, Vbi), Size(0, Request(640, 480, false, 4, 0), true, true);
    var es := [e1, e2, e3];
    assert es[..3] == es;
    RunPrefix(l, s, es, 0);
    RunPrefix(l, s, es, 1);
    RunPrefix(l, s, es, 2);
    VbiClaimed(l);
    PushedOut(l);
    hide NORMS, Step, LimitSize;
  }

  /** An accepted size request that leaves the window alone yields an image that the window can be
      scaled to and that starts below the VBI lines. Its height reaches the minimum of 32 exactly if
      the image is a frame or the window has 64 lines. */
  lemma SizedFitsWindow(l: Limits, d: Dev, h: Handle, q: Request, adjustSize: bool, adjustCrop: bool)
    requires WindowsOk(d) && RequestOk(q) && !MovesWindow(d, h, adjustSize, adjustCrop)
    requires LimitSize(l, d, h, q, adjustSize, adjustCrop).Sized?
    ensures var r, c := LimitSize(l, d, h, q, adjustSize, adjustCrop), d.crop[CropIndex(h)];
            && r.dev == d && d.vbiEnd <= c.rect.top
            && 48 <= r.width <= c.maxWidth && Aligned(r.width, q.unit)
            && FrameHeight(r.height, q.single) <= c.maxHeight
            && (32 <= r.height <==> !q.single || c.maxHeight >= 64)
  {
    hide NORMS, RoundDown;
    var c := d.crop[CropIndex(h)];
    SizedWidthInRange(q, c.minWidth, c.maxWidth);
    MultipleOfFour(48, q.unit);
    RoundDownFacts(48 + q.unit - 1, q.unit, 48);
    MultipleOfFour(c.maxWidth, q.unit);
  }

  /** S_CROP is accepted exactly if nobody captures video and more than 32 lines are left below the VBI
      lines; otherwise it changes nothing. */
  lemma SetCropExactly(l: Limits, s: Sys, id: nat, r: Rect)
    requires DevOk(s.dev) && Partitioned(s) && id in s.fhs
    ensures var (ok, d', h') := SetCrop(l, s.dev, s.fhs[id], r);
            && (ok <==> NoVideoHeld(s) && VideoLines(Bounds(s.dev), s.dev.vbiEnd) > 32)
            && (!ok ==> d' == s.dev && h' == s.fhs[id])
  {
    hide NORMS, RequestedCrop, Partitioned, NoVideoHeld;
    VideoHeldByNobody(s);
  }

  /** Without leave to adjust it a size is accepted exactly if adjusting would not change it, and single
      fields have their 64 lines. */
  lemma StrictSizeExactly(l: Limits, d: Dev, h: Handle, q: Request)
    requires WindowsOk(d) && RequestOk(q) && (q.single ==> d.crop[CropIndex(h)].rect.height >= 64)
    ensures var strict, eased := LimitSize(l, d, h, q, false, false), LimitSize(l, d, h, q, true, false);
            && (strict.Busy? <==> eased.Busy?) && (strict.Busy? <==> d.vbiEnd > d.crop[CropIndex(h)].rect.top)
            && (eased.Sized? ==> (strict.Sized? <==> (eased.width, eased.height) == (q.width, q.height)))
            && (strict.Sized? ==> strict == eased)
  {
    hide NORMS, RoundDown;
    var c := d.crop[CropIndex(h)];
    SizedWidthNearest(q, c.minWidth, c.maxWidth);
    SizedWidthInRange(q, c.minWidth, c.maxWidth);
    MultipleOfFour(48, q.unit);
    RoundDownFacts(48 + q.unit - 1, q.unit, 48);
    MultipleOfFour(c.maxWidth, q.unit);
  }

  /** A norm change to another geometry resets both windows to the default one; a handle opened later
      starts with the size that S_FMT or S_CROP last left. */
  lemma ResetsAndInherits(l: Limits, d: Dev, norm: nat, h: Handle, width: int, height: int, single: bool)
    requires DevOk(d) && norm < |NORMS|
    ensures NORMS[norm] != NORMS[d.norm] ==>
              SetNorm(d, norm).crop == Loaded(norm).dev.crop && SetNorm(d, norm).crop[0].rect == NORMS[norm].defrect
    ensures SetNorm(d, norm).norm == norm && SetNorm(d, norm).vbiEnd == d.vbiEnd
    ensures var (ok, d', h') := SetFormat(l, d, h, width, height, single);
            ok ==> var g := Opened(d', h.doCrop, h.vbiFmtEnd);
                   (g.width, g.height) == (h'.width, h'.height)
  {
    hide NORMS, LimitSize;
  }

  /** An accepted S_CROP also leaves the window below the VBI lines and the handle's image size
      within the window's limits. */
  lemma SetCropIsOk(l: Limits, d: Dev, h: Handle, r: Rect)
    requires LimitsOk(l) && DevOk(d) && SetCrop(l, d, h, r).0
    ensures var (_, d', h') := SetCrop(l, d, h, r);
            var c := d'.crop[1];
            && CropOk(c, Bounds(d)) && c.rect.top >= d.vbiEnd && h'.doCrop
            && Nearest(h'.width, h.width, c.minWidth, c.maxWidth)
            && Nearest(h'.height, h.height, c.minHeight, c.maxHeight)
            && d'.initWidth == (if h'.width == h.width then d.initWidth else h'.width)
            && d'.initHeight == (if h'.height == h.height then d.initHeight else h'.height)
  {
    hide NORMS, RequestedCrop;
    NormsAreOk(d.norm);
    RequestedCropIsOk(l, NORMS[d.norm], d.vbiEnd, r);
  }
}
