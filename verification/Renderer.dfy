/** The DirectX 9 renderer: the draw lists of a frame merged into one vertex and one index buffer. */
module Renderer {

  // ---------- What a frame consists of ----------

  datatype ImDrawVert = ImDrawVert(x: real, y: real, u: real, v: real, col: bv32)

  type ImDrawIdx = i: int | 0 <= i < 0x10000

  datatype Rect = Rect(x: real, y: real, z: real, w: real)

  datatype UserCallback = NoCallback | ResetRenderState | Function(id: int)

  datatype ImDrawCmd = ImDrawCmd(elemCount: nat, clipRect: Rect, textureId: int, vtxOffset: nat, idxOffset: nat,
                                 userCallback: UserCallback)

  datatype ImDrawList = ImDrawList(cmdBuffer: seq<ImDrawCmd>, idxBuffer: seq<ImDrawIdx>, vtxBuffer: seq<ImDrawVert>)

  datatype ImDrawData = ImDrawData(cmdLists: seq<ImDrawList>, totalIdxCount: nat, totalVtxCount: nat,
                                   displayX: real, displayY: real, displayWidth: real, displayHeight: real)

  // ---------- Conversions ----------

  datatype CustomVertex = CustomVertex(x: real, y: real, z: real, col: bv32, u: real, v: real)

  /** RGBA to ARGB: red and blue change places. */
  function Swizzle(c: bv32): bv32 {
    (c & 0xFF00FF00) | ((c & 0xFF0000) >> 16) | ((c & 0xFF) << 16)
  }

  /** The swizzle exchanges the lowest and the third byte, keeps the others, and is its own inverse. */
  lemma SwizzleInvolution(c: bv32)
    ensures Swizzle(Swizzle(c)) == c
    ensures Swizzle(c) & 0xFF == (c >> 16) & 0xFF && (Swizzle(c) >> 16) & 0xFF == c & 0xFF
    ensures (Swizzle(c) >> 8) & 0xFF == (c >> 8) & 0xFF && Swizzle(c) >> 24 == c >> 24
  {
  }

  function Convert(p: ImDrawVert): CustomVertex {
    CustomVertex(p.x, p.y, 0.0, Swizzle(p.col), p.u, p.v)
  }

  function ConvertAll(ps: seq<ImDrawVert>): (r: seq<CustomVertex>)
    ensures |r| == |ps|
    ensures forall i {:trigger r[i]} :: 0 <= i < |ps| ==> r[i] == Convert(ps[i])
  {
    seq(|ps|, i requires 0 <= i < |ps| => Convert(ps[i]))
  }

  /** Conversion to LONG truncates towards zero. */
  function Truncate(r: real): (q: int)
    ensures r >= 0.0 ==> 0 <= q && q as real <= r < (q + 1) as real
    ensures r <= 0.0 ==> q <= 0 && (q - 1) as real < r <= q as real
  {
    if r >= 0.0 then r.Floor else -((-r).Floor)
  }

  datatype Scissor = Scissor(left: int, top: int, right: int, bottom: int)

  function ScissorOf(clip: Rect, x: real, y: real): Scissor {
    Scissor(Truncate(clip.x - x), Truncate(clip.y - y), Truncate(clip.z - x), Truncate(clip.w - y))
  }

  // ---------- The merged buffers and the calls ----------

  function MergedVertices(lists: seq<ImDrawList>): seq<CustomVertex> {
    if lists == [] then [] else ConvertAll(lists[0].vtxBuffer) + MergedVertices(lists[1..])
  }

  function MergedIndices(lists: seq<ImDrawList>): seq<ImDrawIdx> {
    if lists == [] then [] else lists[0].idxBuffer + MergedIndices(lists[1..])
  }

  /** The totals of the frame are those of its lists. */
  predicate CountsAgree(d: ImDrawData) {
    d.totalVtxCount == |MergedVertices(d.cmdLists)| && d.totalIdxCount == |MergedIndices(d.cmdLists)|
  }

  datatype Call =
    | SetupRenderState
    | Invoke(id: int, cmd: ImDrawCmd)
    | DrawIndexed(texture: int, scissor: Scissor, baseVertex: nat, numVertices: nat, startIndex: nat, primCount: nat)

  function CallOf(list: ImDrawList, c: ImDrawCmd, vtx: nat, idx: nat, x: real, y: real): Call {
    match c.userCallback
    case ResetRenderState => SetupRenderState
    case Function(id) => Invoke(id, c)
    case NoCallback =>
      DrawIndexed(c.textureId, ScissorOf(c.clipRect, x, y), c.vtxOffset + vtx, |list.vtxBuffer|, c.idxOffset + idx,
                  c.elemCount / 3)
  }

  /** The calls for the commands of one list. */
  function ListCalls(list: ImDrawList, cs: seq<ImDrawCmd>, vtx: nat, idx: nat, x: real, y: real): (r: seq<Call>)
    ensures |r| == |cs|
    ensures forall i {:trigger r[i]} :: 0 <= i < |cs| ==> r[i] == CallOf(list, cs[i], vtx, idx, x, y)
  {
    seq(|cs|, i requires 0 <= i < |cs| => CallOf(list, cs[i], vtx, idx, x, y))
  }

  /** The calls for all lists; the offsets grow by the sizes of the lists before. */
  function Calls(lists: seq<ImDrawList>, vtx: nat, idx: nat, x: real, y: real): seq<Call> {
    if lists == [] then []
    else
      ListCalls(lists[0], lists[0].cmdBuffer, vtx, idx, x, y)
      + Calls(lists[1..], vtx + |lists[0].vtxBuffer|, idx + |lists[0].idxBuffer|, x, y)
  }

  // ---------- What is drawn ----------

  /** What appears on the screen, independent of buffers and offsets. */
  datatype Event =
    | StateSet
    | Called(id: int, cmd: ImDrawCmd)
    | Triangles(texture: int, scissor: Scissor, vertices: seq<CustomVertex>)
    | Fault

  /** The indices `sel`, shifted by `base`, lie below `size`. */
  predicate Selectable(sel: seq<ImDrawIdx>, base: nat, size: nat) {
    forall e {:trigger sel[e]} :: 0 <= e < |sel| ==> base + sel[e] < size
  }

  /** The vertices that the indices `sel`, shifted by `base`, select. */
  function Select<V>(vs: seq<V>, base: nat, sel: seq<ImDrawIdx>): (r: seq<V>)
    requires Selectable(sel, base, |vs|)
    ensures |r| == |sel|
    ensures forall e {:trigger r[e]} :: 0 <= e < |sel| ==> r[e] == vs[base + sel[e]]
  {
    seq(|sel|, e requires 0 <= e < |sel| => vs[base + sel[e]])
  }

  /** The triangles that the device fetches for a call from its vertex and index buffer. */
  function Fetch(vb: seq<CustomVertex>, ib: seq<ImDrawIdx>, c: Call): Event {
    match c
    case SetupRenderState => StateSet
    case Invoke(id, cmd) => Called(id, cmd)
    case DrawIndexed(texture, scissor, base, n, start, prims) =>
      if start + 3 * prims <= |ib| then
        var sel := ib[start..start + 3 * prims];
        if Selectable(sel, base, |vb|) && Selectable(sel, 0, n) then Triangles(texture, scissor, Select(vb, base, sel))
        else Fault
      else Fault
  }

  /** The elements of a command lie in the buffers of its list. */
  predicate Fits(list: ImDrawList, c: ImDrawCmd) {
    && c.idxOffset + c.elemCount <= |list.idxBuffer|
    && Selectable(list.idxBuffer[c.idxOffset..c.idxOffset + c.elemCount], c.vtxOffset, |list.vtxBuffer|)
  }

  /** The indices of the whole triangles of a command. */
  function TriangleIndices(list: ImDrawList, c: ImDrawCmd): (r: seq<ImDrawIdx>)
    requires Fits(list, c)
    ensures Selectable(r, c.vtxOffset, |list.vtxBuffer|)
  {
    var sel := list.idxBuffer[c.idxOffset..c.idxOffset + c.elemCount];
    sel[..3 * (c.elemCount / 3)]
  }

  predicate AllFit(list: ImDrawList) {
    forall c :: c in list.cmdBuffer && c.userCallback == NoCallback ==> Fits(list, c)
  }

  /** What a command shows, read off the buffers of its own list. */
  function Shown(list: ImDrawList, c: ImDrawCmd, x: real, y: real): Event
    requires c.userCallback == NoCallback ==> Fits(list, c)
  {
    match c.userCallback
    case ResetRenderState => StateSet
    case Function(id) => Called(id, c)
    case NoCallback =>
      Triangles(c.textureId, ScissorOf(c.clipRect, x, y),
                ConvertAll(Select(list.vtxBuffer, c.vtxOffset, TriangleIndices(list, c))))
  }

  function ListShown(list: ImDrawList, x: real, y: real): (r: seq<Event>)
    requires AllFit(list)
    ensures |r| == |list.cmdBuffer|
    ensures forall i {:trigger r[i]} :: 0 <= i < |r| ==> r[i] == Shown(list, list.cmdBuffer[i], x, y)
  {
    seq(|list.cmdBuffer|, i requires 0 <= i < |list.cmdBuffer| => Shown(list, list.cmdBuffer[i], x, y))
  }

  /** The frame, list by list. */
  function AllShown(lists: seq<ImDrawList>, x: real, y: real): seq<Event>
    requires forall l :: l in lists ==> AllFit(l)
  {
    if lists == [] then [] else ListShown(lists[0], x, y) + AllShown(lists[1..], x, y)
  }

  function FetchAll(vb: seq<CustomVertex>, ib: seq<ImDrawIdx>, cs: seq<Call>): (r: seq<Event>)
    ensures |r| == |cs|
    ensures forall i {:trigger r[i]} :: 0 <= i < |cs| ==> r[i] == Fetch(vb, ib, cs[i])
  {
    seq(|cs|, i requires 0 <= i < |cs| => Fetch(vb, ib, cs[i]))
  }

  // ---------- What the events mean ----------

  /** `q` is `v` without its fraction. */
  predicate DropsFraction(v: real, q: int) {
    && (v >= 0.0 ==> 0 <= q && q as real <= v < (q + 1) as real)
    && (v <= 0.0 ==> q <= 0 && (q - 1) as real < v <= q as real)
  }

  /** Each edge is the edge of the clip rectangle, relative to the display, without its fraction. */
  predicate CutsOut(clip: Rect, x: real, y: real, s: Scissor) {
    && DropsFraction(clip.x - x, s.left) && DropsFraction(clip.z - x, s.right)
    && DropsFraction(clip.y - y, s.top) && DropsFraction(clip.w - y, s.bottom)
  }

  /** With whole coordinates, a pixel lies in the scissor if and only if its place on the display lies in
      the clip rectangle. */
  lemma ScissorPixels(clip: Rect, x: real, y: real, s: Scissor, left: int, top: int, right: int, bottom: int,
                      ox: int, oy: int, px: int, py: int)
    requires CutsOut(clip, x, y, s)
    requires clip == Rect(left as real, top as real, right as real, bottom as real)
    requires x == ox as real && y == oy as real
    ensures s.left <= px < s.right && s.top <= py < s.bottom <==>
            left <= px + ox < right && top <= py + oy < bottom
  {
    WholeEdge(left, ox, s.left);
    WholeEdge(right, ox, s.right);
    WholeEdge(top, oy, s.top);
    WholeEdge(bottom, oy, s.bottom);
  }

  lemma WholeEdge(edge: int, origin: int, q: int)
    requires DropsFraction(edge as real - origin as real, q)
    ensures q == edge - origin
  {
    var v := edge - origin;
    assert v as real == edge as real - origin as real;
  }

  /** The device's vertex is at the place of `p`, with its texture coordinates, and its colour with red and
      blue exchanged. */
  predicate Draws(p: ImDrawVert, v: CustomVertex) {
    && v.x == p.x && v.y == p.y && v.z == 0.0 && v.u == p.u && v.v == p.v
    && v.col & 0xFF == (p.col >> 16) & 0xFF && (v.col >> 16) & 0xFF == p.col & 0xFF
    && (v.col >> 8) & 0xFF == (p.col >> 8) & 0xFF && v.col >> 24 == p.col >> 24
  }

  /** What a command has to show: its texture, cut out by its clip rectangle, on the vertices of its list
      that its whole triangles name; or a callback; or the state is set up. */
  predicate Shows(list: ImDrawList, c: ImDrawCmd, x: real, y: real, e: Event) {
    match c.userCallback
    case ResetRenderState => e == StateSet
    case Function(id) => e == Called(id, c)
    case NoCallback =>
      && Fits(list, c)
      && e.Triangles?
      && e.texture == c.textureId
      && CutsOut(c.clipRect, x, y, e.scissor)
      && |e.vertices| == c.elemCount - c.elemCount % 3
      && forall j {:trigger e.vertices[j]} :: 0 <= j < |e.vertices| ==>
           && c.vtxOffset + list.idxBuffer[c.idxOffset + j] < |list.vtxBuffer|
           && Draws(list.vtxBuffer[c.vtxOffset + list.idxBuffer[c.idxOffset + j]], e.vertices[j])
  }

  lemma ConvertDraws(p: ImDrawVert)
    ensures Draws(p, Convert(p))
  {
    SwizzleInvolution(p.col);
  }

  lemma ShownMeans(list: ImDrawList, c: ImDrawCmd, x: real, y: real)
    requires c.userCallback == NoCallback ==> Fits(list, c)
    ensures Shows(list, c, x, y, Shown(list, c, x, y))
  {
    hide Convert, Truncate, Draws;
    if c.userCallback == NoCallback {
      var e := Shown(list, c, x, y);
      var sel := list.idxBuffer[c.idxOffset..c.idxOffset + c.elemCount];
      forall j | 0 <= j < |e.vertices|
        ensures c.vtxOffset + list.idxBuffer[c.idxOffset + j] < |list.vtxBuffer|
        ensures Draws(list.vtxBuffer[c.vtxOffset + list.idxBuffer[c.idxOffset + j]], e.vertices[j])
      {
        assert sel[j] == list.idxBuffer[c.idxOffset + j];
        assert TriangleIndices(list, c)[j] == sel[j];
        ConvertDraws(list.vtxBuffer[c.vtxOffset + sel[j]]);
      }
    }
  }

  /** The events are those of the commands, list by list. */
  predicate AllShow(lists: seq<ImDrawList>, x: real, y: real, events: seq<Event>)
    decreases |lists|
  {
    if lists == [] then events == []
    else
      var list, n := lists[0], |lists[0].cmdBuffer|;
      && n <= |events|
      && (forall i {:trigger events[i]} :: 0 <= i < n ==> Shows(list, list.cmdBuffer[i], x, y, events[i]))
      && AllShow(lists[1..], x, y, events[n..])
  }

  lemma {:induction false} FrameMeans(lists: seq<ImDrawList>, x: real, y: real)
    requires forall l :: l in lists ==> AllFit(l)
    ensures AllShow(lists, x, y, AllShown(lists, x, y))
    decreases |lists|
  {
    hide Shows, Shown, AllFit, Fits;
    if lists != [] {
      var list, rest := lists[0], AllShown(lists[1..], x, y);
      FrameMeans(lists[1..], x, y);
      ListMeans(list, x, y);
      var events := AllShown(lists, x, y);
      assert events == ListShown(list, x, y) + rest;
      assert events[|list.cmdBuffer|..] == rest;
    }
  }

  lemma ListMeans(list: ImDrawList, x: real, y: real)
    requires AllFit(list)
    ensures forall i {:trigger ListShown(list, x, y)[i]} :: 0 <= i < |list.cmdBuffer| ==>
              Shows(list, list.cmdBuffer[i], x, y, ListShown(list, x, y)[i])
  {
    hide Shows, Shown, Fits;
    forall i | 0 <= i < |list.cmdBuffer|
      ensures Shows(list, list.cmdBuffer[i], x, y, ListShown(list, x, y)[i])
    {
      ShownMeans(list, list.cmdBuffer[i], x, y);
    }
  }

  /** The buffers hold the data of `list` from the two offsets on. */
  ghost predicate Holds(vb: seq<CustomVertex>, ib: seq<ImDrawIdx>, list: ImDrawList, vtx: nat, idx: nat) {
    && vtx + |list.vtxBuffer| <= |vb| && idx + |list.idxBuffer| <= |ib|
    && (forall i {:trigger list.vtxBuffer[i]} :: 0 <= i < |list.vtxBuffer| ==>
          vb[vtx + i] == Convert(list.vtxBuffer[i]))
    && forall i {:trigger list.idxBuffer[i]} :: 0 <= i < |list.idxBuffer| ==> ib[idx + i] == list.idxBuffer[i]
  }

  /** One draw call fetches converted copies of the vertices that the command selects in its list. */
  lemma FetchesOwnVertices(vb: seq<CustomVertex>, ib: seq<ImDrawIdx>, list: ImDrawList, c: ImDrawCmd,
                           vtx: nat, idx: nat, x: real, y: real)
    requires Holds(vb, ib, list, vtx, idx)
    requires c.userCallback == NoCallback ==> Fits(list, c)
    ensures Fetch(vb, ib, CallOf(list, c, vtx, idx, x, y)) == Shown(list, c, x, y)
  {
    hide Convert, ScissorOf;
    if c.userCallback == NoCallback {
      var n := 3 * (c.elemCount / 3);
      var sel, start := TriangleIndices(list, c), c.idxOffset + idx;
      forall e | 0 <= e < n
        ensures ib[start..start + n][e] == sel[e]
      {
        assert sel[e] == list.idxBuffer[c.idxOffset + e];
      }
      assert ib[start..start + n] == sel;
      assert Selectable(sel, c.vtxOffset + vtx, |vb|) && Selectable(sel, 0, |list.vtxBuffer|);
      SameVertices(vb, list, sel, c.vtxOffset, vtx);
    }
  }

  lemma SameVertices(vb: seq<CustomVertex>, list: ImDrawList, sel: seq<ImDrawIdx>, base: nat, vtx: nat)
    requires Selectable(sel, base, |list.vtxBuffer|) && vtx + |list.vtxBuffer| <= |vb|
    requires forall i {:trigger list.vtxBuffer[i]} :: 0 <= i < |list.vtxBuffer| ==>
               vb[vtx + i] == Convert(list.vtxBuffer[i])
    ensures Selectable(sel, base + vtx, |vb|)
    ensures Select(vb, base + vtx, sel) == ConvertAll(Select(list.vtxBuffer, base, sel))
  {
    hide Convert;
    var own := Select(list.vtxBuffer, base, sel);
    forall e | 0 <= e < |sel|
      ensures vb[base + vtx + sel[e]] == Convert(own[e])
    {
      assert own[e] == list.vtxBuffer[base + sel[e]];
    }
  }

  lemma ListFetched(vb: seq<CustomVertex>, ib: seq<ImDrawIdx>, list: ImDrawList, vtx: nat, idx: nat, x: real, y: real)
    requires Holds(vb, ib, list, vtx, idx) && AllFit(list)
    ensures FetchAll(vb, ib, ListCalls(list, list.cmdBuffer, vtx, idx, x, y)) == ListShown(list, x, y)
  {
    hide Fetch, Shown, CallOf, Holds;
    forall i | 0 <= i < |list.cmdBuffer|
      ensures Fetch(vb, ib, CallOf(list, list.cmdBuffer[i], vtx, idx, x, y)) == Shown(list, list.cmdBuffer[i], x, y)
    {
      FetchesOwnVertices(vb, ib, list, list.cmdBuffer[i], vtx, idx, x, y);
    }
  }

  lemma {:induction false} MergedFetched(vb: seq<CustomVertex>, ib: seq<ImDrawIdx>, lists: seq<ImDrawList>,
                                         vtx: nat, idx: nat, x: real, y: real)
    requires forall l :: l in lists ==> AllFit(l)
    requires vtx + |MergedVertices(lists)| <= |vb| && idx + |MergedIndices(lists)| <= |ib|
    requires vb[vtx..vtx + |MergedVertices(lists)|] == MergedVertices(lists)
    requires ib[idx..idx + |MergedIndices(lists)|] == MergedIndices(lists)
    ensures FetchAll(vb, ib, Calls(lists, vtx, idx, x, y)) == AllShown(lists, x, y)
  {
    hide Fetch, Shown, CallOf, AllFit, Holds, ListShown, ListCalls, MergedVertices, MergedIndices;
    if lists != [] {
      var list, rest := lists[0], lists[1..];
      var v, i := vtx + |list.vtxBuffer|, idx + |list.idxBuffer|;
      SplitHold(vb, ib, lists, vtx, idx);
      ListFetched(vb, ib, list, vtx, idx, x, y);
      MergedFetched(vb, ib, rest, v, i, x, y);
      FetchAppend(vb, ib, ListCalls(list, list.cmdBuffer, vtx, idx, x, y), Calls(rest, v, i, x, y));
    }
  }

  lemma FetchAppend(vb: seq<CustomVertex>, ib: seq<ImDrawIdx>, a: seq<Call>, b: seq<Call>)
    ensures FetchAll(vb, ib, a + b) == FetchAll(vb, ib, a) + FetchAll(vb, ib, b)
  {
    hide Fetch;
  }

  lemma MergedParts(lists: seq<ImDrawList>)
    requires lists != []
    ensures var mv, nv := MergedVertices(lists), |lists[0].vtxBuffer|;
            nv <= |mv| && mv[..nv] == ConvertAll(lists[0].vtxBuffer) && mv[nv..] == MergedVertices(lists[1..])
    ensures var mi, ni := MergedIndices(lists), |lists[0].idxBuffer|;
            ni <= |mi| && mi[..ni] == lists[0].idxBuffer && mi[ni..] == MergedIndices(lists[1..])
  {
    hide Convert;
  }

  lemma SplitHold(vb: seq<CustomVertex>, ib: seq<ImDrawIdx>, lists: seq<ImDrawList>, vtx: nat, idx: nat)
    requires lists != []
    requires vtx + |MergedVertices(lists)| <= |vb| && idx + |MergedIndices(lists)| <= |ib|
    requires vb[vtx..vtx + |MergedVertices(lists)|] == MergedVertices(lists)
    requires ib[idx..idx + |MergedIndices(lists)|] == MergedIndices(lists)
    ensures Holds(vb, ib, lists[0], vtx, idx)
    ensures var v, n := vtx + |lists[0].vtxBuffer|, |MergedVertices(lists[1..])|;
            v + n <= |vb| && vb[v..v + n] == MergedVertices(lists[1..])
    ensures var i, n := idx + |lists[0].idxBuffer|, |MergedIndices(lists[1..])|;
            i + n <= |ib| && ib[i..i + n] == MergedIndices(lists[1..])
  {
    hide Convert, MergedVertices, MergedIndices;
    MergedParts(lists);
    var mv, mi := MergedVertices(lists), MergedIndices(lists);
    var nv, ni := |lists[0].vtxBuffer|, |lists[0].idxBuffer|;
    forall i | 0 <= i < nv
      ensures vb[vtx + i] == Convert(lists[0].vtxBuffer[i])
    {
      assert vb[vtx..vtx + |mv|][i] == mv[i] == mv[..nv][i];
    }
    forall i | 0 <= i < ni
      ensures ib[idx + i] == lists[0].idxBuffer[i]
    {
      assert ib[idx..idx + |mi|][i] == mi[i] == mi[..ni][i];
    }
    assert vb[vtx..vtx + |mv|][nv..] == vb[vtx + nv..vtx + |mv|];
    assert ib[idx..idx + |mi|][ni..] == ib[idx + ni..idx + |mi|];
  }

  /** Merging does not change what is drawn: with the merged data at the start of the buffers, the
      calls of a frame fetch, in order, what the lists show from their own buffers. */
  lemma MergeDrawsTheSame(vb: seq<CustomVertex>, ib: seq<ImDrawIdx>, d: ImDrawData)
    requires CountsAgree(d) && forall l :: l in d.cmdLists ==> AllFit(l)
    requires d.totalVtxCount <= |vb| && vb[..d.totalVtxCount] == MergedVertices(d.cmdLists)
    requires d.totalIdxCount <= |ib| && ib[..d.totalIdxCount] == MergedIndices(d.cmdLists)
    ensures FetchAll(vb, ib, Calls(d.cmdLists, 0, 0, d.displayX, d.displayY)) ==
            AllShown(d.cmdLists, d.displayX, d.displayY)
    ensures Fault !in FetchAll(vb, ib, Calls(d.cmdLists, 0, 0, d.displayX, d.displayY))
  {
    assert vb[0..d.totalVtxCount] == vb[..d.totalVtxCount] && ib[0..d.totalIdxCount] == ib[..d.totalIdxCount];
    MergedFetched(vb, ib, d.cmdLists, 0, 0, d.displayX, d.displayY);
    NothingFaults(d.cmdLists, d.displayX, d.displayY);
  }

  lemma {:induction false} NothingFaults(lists: seq<ImDrawList>, x: real, y: real)
    requires forall l :: l in lists ==> AllFit(l)
    ensures Fault !in AllShown(lists, x, y)
  {
    if lists != [] {
      NothingFaults(lists[1..], x, y);
      assert forall i :: 0 <= i < |ListShown(lists[0], x, y)| ==> ListShown(lists[0], x, y)[i] != Fault;
    }
  }

  // ---------- Filling the buffers ----------

  /** Convert the vertices of a list into the locked buffer from `dst` on. */
  method CopyVertices(vb: array<CustomVertex>, dst: nat, src: seq<ImDrawVert>)
    requires dst + |src| <= vb.Length
    modifies vb
    ensures vb[..dst + |src|] == old(vb[..dst]) + ConvertAll(src)
  {
    for i := 0 to |src|
      invariant vb[..dst] == old(vb[..dst])
      invariant forall k {:trigger vb[k]} :: dst <= k < dst + i ==> vb[k] == Convert(src[k - dst])
    {
      vb[dst + i] := CustomVertex(src[i].x, src[i].y, 0.0, Swizzle(src[i].col), src[i].u, src[i].v);
    }
    CopiedAll(vb[..], dst, src);
  }

  lemma CopiedAll(vb: seq<CustomVertex>, dst: nat, src: seq<ImDrawVert>)
    requires dst + |src| <= |vb|
    requires forall k {:trigger vb[k]} :: dst <= k < dst + |src| ==> vb[k] == Convert(src[k - dst])
    ensures vb[..dst + |src|] == vb[..dst] + ConvertAll(src)
  {
    hide Convert;
    assert vb[dst..dst + |src|] == ConvertAll(src);
  }

  /** Copy the indices of a list as they are. */
  method CopyIndices(ib: array<ImDrawIdx>, dst: nat, src: seq<ImDrawIdx>)
    requires dst + |src| <= ib.Length
    modifies ib
    ensures ib[..dst + |src|] == old(ib[..dst]) + src
  {
    forall k | 0 <= k < |src| {
      ib[dst + k] := src[k];
    }
  }

  /** The loop that fills both locked buffers, list after list. */
  method FillBuffers(vb: array<CustomVertex>, ib: array<ImDrawIdx>, lists: seq<ImDrawList>)
    requires |MergedVertices(lists)| <= vb.Length && |MergedIndices(lists)| <= ib.Length
    modifies vb, ib
    ensures vb[..|MergedVertices(lists)|] == MergedVertices(lists)
    ensures ib[..|MergedIndices(lists)|] == MergedIndices(lists)
  {
    hide Convert, MergedVertices, MergedIndices;
    NothingMerged(lists);
    var v: nat, i: nat := 0, 0;
    for n := 0 to |lists|
      invariant v + |MergedVertices(lists[n..])| == |MergedVertices(lists)|
      invariant i + |MergedIndices(lists[n..])| == |MergedIndices(lists)|
      invariant vb[..v] + MergedVertices(lists[n..]) == MergedVertices(lists)
      invariant ib[..i] + MergedIndices(lists[n..]) == MergedIndices(lists)
    {
      NextList(lists, n);
      ghost var doneV, doneI := vb[..v], ib[..i];
      CopyVertices(vb, v, lists[n].vtxBuffer);
      CopyIndices(ib, i, lists[n].idxBuffer);
      v, i := v + |lists[n].vtxBuffer|, i + |lists[n].idxBuffer|;
      Regroup(doneV, ConvertAll(lists[n].vtxBuffer), MergedVertices(lists[n + 1..]));
      Regroup(doneI, lists[n].idxBuffer, MergedIndices(lists[n + 1..]));
    }
  }

  lemma NothingMerged(lists: seq<ImDrawList>)
    ensures lists[0..] == lists && [] + MergedVertices(lists) == MergedVertices(lists)
    ensures [] + MergedIndices(lists) == MergedIndices(lists)
    ensures MergedVertices(lists[|lists|..]) == [] && MergedIndices(lists[|lists|..]) == []
  {
  }

  lemma NextList(lists: seq<ImDrawList>, n: nat)
    requires n < |lists|
    ensures MergedVertices(lists[n..]) == ConvertAll(lists[n].vtxBuffer) + MergedVertices(lists[n + 1..])
    ensures MergedIndices(lists[n..]) == lists[n].idxBuffer + MergedIndices(lists[n + 1..])
  {
    hide Convert;
    assert lists[n..][1..] == lists[n + 1..];
  }

  lemma Regroup<T>(a: seq<T>, b: seq<T>, c: seq<T>)
    ensures a + (b + c) == a + b + c
  {
  }

  // ---------- The renderer ----------

  /** The state of the device: the three transforms, and all the settings that a state block holds. */
  datatype States = States(world: seq<real>, view: seq<real>, projection: seq<real>, settings: seq<int>)

  /** What the device answers to the requests of one frame, and the state in which the calls leave it. */
  datatype Device = Device(vertexBuffer: bool, indexBuffer: bool, stateBlock: bool, vertexLock: bool, indexLock: bool,
                           touched: States)

  class DX9Renderer {
    var vb: array?<CustomVertex>
    var ib: array?<ImDrawIdx>
    var vertexBufferSize: nat
    var indexBufferSize: nat
    var attached: bool
    var fontTexture: int
    var texId: int
    var states: States
    var openBlocks: nat

    /** A buffer that exists is as long as its recorded size. */
    ghost predicate Valid()
      reads this
    {
      && (vb != null ==> vb.Length == vertexBufferSize)
      && (ib != null ==> ib.Length == indexBufferSize)
    }

    ghost function Footprint(): set<object>
      reads this
    {
      var vertices: set<object> := if vb == null then {} else {vb};
      var indices: set<object> := if ib == null then {} else {ib};
      vertices + indices
    }

    /** The buffer of the last frame is large enough. */
    ghost predicate VertexRoom(d: ImDrawData)
      reads this
    {
      vb != null && d.totalVtxCount <= vertexBufferSize
    }

    ghost predicate IndexRoom(d: ImDrawData)
      reads this
    {
      ib != null && d.totalIdxCount <= indexBufferSize
    }

    constructor (initial: States)
      ensures Valid() && vb == null && ib == null && !attached && fontTexture == 0 && states == initial
    {
      vb, ib := null, null;
      vertexBufferSize, indexBufferSize := 5000, 10000;
      attached, fontTexture, texId, states, openBlocks := false, 0, 0, initial, 0;
    }

    /** Create the vertex buffer, or a larger one. */
    method GrowVertices(count: nat, created: bool) returns (ok: bool)
      requires Valid()
      modifies this`vb, this`vertexBufferSize
      ensures Valid() && (ok ==> vb != null && count <= vb.Length) && (vb == null || vb == old(vb) || fresh(vb))
      ensures ok <==> created || (old(vb) != null && count <= old(vertexBufferSize))
      ensures if old(vb) != null && count <= old(vertexBufferSize)
              then vb == old(vb) && vertexBufferSize == old(vertexBufferSize)
              else vertexBufferSize == count + 5000
    {
      if vb == null || vertexBufferSize < count {
        vb := null;
        vertexBufferSize := count + 5000;
        if !created {
          return false;
        }
        vb := new CustomVertex[vertexBufferSize];
      }
      ok := true;
    }

    method GrowIndices(count: nat, created: bool) returns (ok: bool)
      requires Valid()
      modifies this`ib, this`indexBufferSize
      ensures Valid() && (ok ==> ib != null && count <= ib.Length) && (ib == null || ib == old(ib) || fresh(ib))
      ensures ok <==> created || (old(ib) != null && count <= old(indexBufferSize))
      ensures if old(ib) != null && count <= old(indexBufferSize)
              then ib == old(ib) && indexBufferSize == old(indexBufferSize)
              else indexBufferSize == count + 10000
    {
      if ib == null || indexBufferSize < count {
        ib := null;
        indexBufferSize := count + 10000;
        if !created {
          return false;
        }
        ib := new ImDrawIdx[indexBufferSize];
      }
      ok := true;
    }

    /** Release both buffers and the font texture, and clear the texture's identifier. */
    method InvalidateDeviceObjects()
      requires Valid()
      modifies this`vb, this`ib, this`fontTexture, this`texId
      ensures Valid()
      ensures attached ==> vb == null && ib == null && fontTexture == 0
      ensures texId == if attached && old(fontTexture) != 0 then 0 else old(texId)
      ensures !attached ==> vb == old(vb) && ib == old(ib) && fontTexture == old(fontTexture)
    {
      if !attached {
        return;
      }
      if vb != null {
        vb := null;
      }
      if ib != null {
        ib := null;
      }
      if fontTexture != 0 {
        fontTexture := 0;
        texId := 0;
      }
    }

    /** A device is there from Init to Shutdown. */
    method Init()
      modifies this`attached
      ensures attached
    {
      attached := true;
    }

    method Shutdown()
      requires Valid()
      modifies this`vb, this`ib, this`fontTexture, this`texId, this`attached
      ensures Valid() && !attached
      ensures old(attached) ==> vb == null && ib == null && fontTexture == 0
    {
      InvalidateDeviceObjects();
      if attached {
        attached := false;
      }
    }

    /** Upload the font: `texture` is what the device creates, 0 if it fails, and `locked` whether it can be
        filled. The identifier is stored only for a filled texture, but a texture that could not be filled
        stays. */
    method CreateFontsTexture(texture: int, locked: bool) returns (ok: bool)
      modifies this`fontTexture, this`texId
      ensures fontTexture == texture && (ok <==> texture != 0 && locked)
      ensures texId == if ok then texture else old(texId)
    {
      fontTexture := 0;
      if texture == 0 {
        return false;
      }
      fontTexture := texture;
      if !locked {
        return false;
      }
      texId := fontTexture;
      ok := true;
    }

    /** Before a frame the font is uploaded unless there is a texture; so an upload that failed on a texture
        that was created is never repeated. */
    method NewFrame(texture: int, locked: bool)
      modifies this`fontTexture, this`texId
      ensures old(fontTexture) != 0 || !attached ==> fontTexture == old(fontTexture) && texId == old(texId)
      ensures old(fontTexture) == 0 && attached ==>
                fontTexture == texture && texId == (if texture != 0 && locked then texture else old(texId))
    {
      if fontTexture == 0 && attached {
        var _ := CreateFontsTexture(texture, locked);
      }
    }

    /** The loop that turns the commands into calls, with the running offsets of the merged buffers. */
    method RenderLists(d: ImDrawData) returns (calls: seq<Call>)
      ensures calls == Calls(d.cmdLists, 0, 0, d.displayX, d.displayY)
    {
      hide CallOf;
      calls := [];
      var vtx: nat, idx: nat := 0, 0;
      for n := 0 to |d.cmdLists|
        invariant calls + Calls(d.cmdLists[n..], vtx, idx, d.displayX, d.displayY) ==
                  Calls(d.cmdLists, 0, 0, d.displayX, d.displayY)
      {
        var list := d.cmdLists[n];
        ghost var before := calls;
        assert d.cmdLists[n..][1..] == d.cmdLists[n + 1..];
        var own := RenderList(list, vtx, idx, d.displayX, d.displayY);
        calls := calls + own;
        idx := idx + |list.idxBuffer|;
        vtx := vtx + |list.vtxBuffer|;
        Regroup(before, own, Calls(d.cmdLists[n + 1..], vtx, idx, d.displayX, d.displayY));
      }
    }

    method RenderList(list: ImDrawList, vtx: nat, idx: nat, x: real, y: real) returns (calls: seq<Call>)
      ensures calls == ListCalls(list, list.cmdBuffer, vtx, idx, x, y)
    {
      hide ScissorOf;
      calls := [];
      for i := 0 to |list.cmdBuffer|
        invariant |calls| == i
        invariant forall k {:trigger calls[k]} :: 0 <= k < i ==>
                    calls[k] == CallOf(list, list.cmdBuffer[k], vtx, idx, x, y)
      {
        var c := list.cmdBuffer[i];
        if c.userCallback != NoCallback {
          if c.userCallback == ResetRenderState {
            calls := calls + [SetupRenderState];
          } else {
            calls := calls + [Invoke(c.userCallback.id, c)];
          }
        } else {
          var r := ScissorOf(c.clipRect, x, y);
          calls := calls + [DrawIndexed(c.textureId, r, c.vtxOffset + vtx, |list.vtxBuffer|, c.idxOffset + idx,
                                        c.elemCount / 3)];
        }
      }
    }

    /** Fill the buffers and draw from them; the calls leave the device in state `touched`. */
    method DrawMerged(d: ImDrawData, touched: States) returns (calls: seq<Call>)
      requires Valid() && CountsAgree(d) && vb != null && ib != null
      requires d.totalVtxCount <= vb.Length && d.totalIdxCount <= ib.Length
      modifies vb, ib, this`states
      ensures Valid() && states == touched
      ensures vb[..d.totalVtxCount] == MergedVertices(d.cmdLists) && ib[..d.totalIdxCount] == MergedIndices(d.cmdLists)
      ensures calls == [SetupRenderState] + Calls(d.cmdLists, 0, 0, d.displayX, d.displayY)
      ensures (forall l :: l in d.cmdLists ==> AllFit(l)) ==>
                && FetchAll(vb[..], ib[..], calls[1..]) == AllShown(d.cmdLists, d.displayX, d.displayY)
                && AllShow(d.cmdLists, d.displayX, d.displayY, FetchAll(vb[..], ib[..], calls[1..]))
    {
      hide Fetch, AllFit, AllShown, AllShow, Calls;
      FillBuffers(vb, ib, d.cmdLists);
      var rest := RenderLists(d);
      calls := [SetupRenderState] + rest;
      states := touched;
      FrameDraws(vb[..], ib[..], d, calls);
    }

    /** One frame. Nothing is drawn for an empty display or when the device refuses a request; otherwise
        the calls, after one that sets up the state, draw from buffers that start with the merged data.
        The device has its old state afterwards, whatever the calls do to it; but the backup of the state is
        not released when a buffer cannot be locked. */
    method RenderDrawData(d: ImDrawData, device: Device) returns (calls: seq<Call>)
      requires Valid() && CountsAgree(d)
      modifies this, Footprint()
      ensures Valid() && fresh(Footprint() - old(Footprint()))
      ensures Rendered(d, device, old(VertexRoom(d)), old(IndexRoom(d))) ==>
                && vb != null && ib != null && d.totalVtxCount <= vb.Length && d.totalIdxCount <= ib.Length
                && vb[..d.totalVtxCount] == MergedVertices(d.cmdLists)
                && ib[..d.totalIdxCount] == MergedIndices(d.cmdLists)
                && calls == [SetupRenderState] + Calls(d.cmdLists, 0, 0, d.displayX, d.displayY)
      ensures Rendered(d, device, old(VertexRoom(d)), old(IndexRoom(d)))
              && (forall l :: l in d.cmdLists ==> AllFit(l)) ==>
                && vb != null && ib != null && calls != []
                && FetchAll(vb[..], ib[..], calls[1..]) == AllShown(d.cmdLists, d.displayX, d.displayY)
                && AllShow(d.cmdLists, d.displayX, d.displayY, FetchAll(vb[..], ib[..], calls[1..]))
      ensures !Rendered(d, device, old(VertexRoom(d)), old(IndexRoom(d))) ==> calls == []
      ensures states == old(states)
      ensures openBlocks == old(openBlocks)
                            + (if LeavesEarly(d, device, old(VertexRoom(d)), old(IndexRoom(d))) then 1 else 0)
    {
      hide FetchAll, AllFit, AllShown, AllShow, Calls, MergedVertices, MergedIndices;
      calls := [];
      if d.displayWidth <= 0.0 || d.displayHeight <= 0.0 {
        return;
      }
      var ok := GrowVertices(d.totalVtxCount, device.vertexBuffer);
      if !ok {
        return;
      }
      ok := GrowIndices(d.totalIdxCount, device.indexBuffer);
      if !ok {
        return;
      }
      if !device.stateBlock {
        return;
      }
      openBlocks := openBlocks + 1;
      var block, world, view, projection := states.settings, states.world, states.view, states.projection;
      if !device.vertexLock || !device.indexLock {
        return;
      }
      calls := DrawMerged(d, device.touched);
      states := states.(world := world, view := view, projection := projection);
      states := states.(settings := block);
      openBlocks := openBlocks - 1;
    }
  }

  /** The calls of a frame, behind the one that sets up the state, draw its lists. */
  lemma FrameDraws(vb: seq<CustomVertex>, ib: seq<ImDrawIdx>, d: ImDrawData, calls: seq<Call>)
    requires CountsAgree(d)
    requires d.totalVtxCount <= |vb| && vb[..d.totalVtxCount] == MergedVertices(d.cmdLists)
    requires d.totalIdxCount <= |ib| && ib[..d.totalIdxCount] == MergedIndices(d.cmdLists)
    requires calls == [SetupRenderState] + Calls(d.cmdLists, 0, 0, d.displayX, d.displayY)
    ensures (forall l :: l in d.cmdLists ==> AllFit(l)) ==>
              && FetchAll(vb, ib, calls[1..]) == AllShown(d.cmdLists, d.displayX, d.displayY)
              && AllShow(d.cmdLists, d.displayX, d.displayY, FetchAll(vb, ib, calls[1..]))
  {
    hide Fetch, AllFit, AllShow;
    assert calls[1..] == Calls(d.cmdLists, 0, 0, d.displayX, d.displayY);
    if forall l :: l in d.cmdLists ==> AllFit(l) {
      MergeDrawsTheSame(vb, ib, d);
      FrameMeans(d.cmdLists, d.displayX, d.displayY);
    }
  }

  /** The frame is drawn: the display is not empty, and each buffer is large enough or is created. */
  predicate Rendered(d: ImDrawData, device: Device, vertexRoom: bool, indexRoom: bool) {
    && d.displayWidth > 0.0 && d.displayHeight > 0.0
    && (vertexRoom || device.vertexBuffer) && (indexRoom || device.indexBuffer)
    && device.stateBlock && device.vertexLock && device.indexLock
  }

  /** The frame ends between the backup of the device state and its restoration: exactly if the backup
      was made and one of the buffers cannot be locked. */
  predicate LeavesEarly(d: ImDrawData, device: Device, vertexRoom: bool, indexRoom: bool) {
    && d.displayWidth > 0.0 && d.displayHeight > 0.0
    && (vertexRoom || device.vertexBuffer) && (indexRoom || device.indexBuffer)
    && device.stateBlock && !(device.vertexLock && device.indexLock)
  }
}
