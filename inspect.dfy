/**
 * The inspector of runtime/devicescript/inspect.c: the render state and its writer, the
 * recursive renderer and the two-pass driver, proved against the Writer and Layout
 * specifications.
 */
module Inspect {
  import opened Text
  import opened Writer
  import opened Values
  import opened Layout
  import opened Render

  /**
   * The backward scan of add_str once `s` does not fit in `space` bytes: the number of
   * bytes to keep, cutting in front of the lead byte of the last code point that would
   * be touched when the last byte that fits is not ASCII.
   */
  method KeptLength(s: seq<Byte>, space: nat) returns (sz: nat)
    requires space < CStrLen(s)
    ensures sz == SafeCut(CStr(s), space)
  {
    ghost var t := CStr(s);
    // the byte at ep is the last one to be kept
    var ep: int := space - 1;
    if ep >= 0 && s[ep] >= 0x80 {
      while ep >= 0
        invariant -1 <= ep < space
        invariant ep >= 0 ==> LastLead(t, space - 1) == LastLead(t, ep)
        invariant ep < 0 ==> LastLead(t, space - 1) == 0
      {
        if !IsCont(s[ep]) {
          ep := ep - 1;
          break;
        }
        ep := ep - 1;
      }
    }
    sz := ep + 1;
  }

  /** The runtime context (devs_ctx_t) as far as the inspector uses it: the heap and its pin set. */
  class Ctx {
    const host: Host
    var pins: set<Id>

    constructor (host: Host, pins: set<Id>)
      ensures this.host == host && this.pins == pins
    {
      this.host := host;
      this.pins := pins;
    }
  }

  /**
   * The render state inspect_t: write offset, capacity, code-point count, destination
   * (null in measure-only mode) and overflow flag. `written` is the ghost record of the
   * bytes emitted so far, in either mode.
   */
  class Inspector {
    const ctx: Ctx
    const size: nat
    const dst: array?<Byte>
    var off: nat
    var ulen: nat
    var overflow: bool
    ghost var written: seq<Byte>

    ghost predicate Valid()
      reads this, dst
    {
      && off == |written|
      && off <= size
      && (dst != null ==> off <= dst.Length && dst[..off] == written)
    }

    /** The abstract content of the state. */
    ghost function State(): Progress
      reads this
    {
      Progress(written, ulen, overflow)
    }

    constructor (ctx: Ctx, dst: array?<Byte>, size: nat)
      ensures this.ctx == ctx && this.dst == dst && this.size == size
      ensures Valid() && State() == Fresh
    {
      this.ctx := ctx;
      this.dst := dst;
      this.size := size;
      off := 0;
      ulen := 0;
      overflow := false;
      written := [];
    }

    /**
     * add_str: write the C string `s` as far as it fits, never splitting a code point;
     * the destination changes only where the new bytes go.
     */
    method AddStr(s: seq<Byte>)
      requires Valid()
      requires dst != null ==> |Append(size, State(), s).out| <= dst.Length
      modifies this, dst
      ensures Valid()
      ensures State() == Append(size, old(State()), s)
      ensures dst != null ==> forall j | off <= j < dst.Length :: dst[j] == old(dst[j])
    {
      if overflow {
        return;
      }
      ghost var p0 := State();
      var space := size - off;
      var sz := CStrLen(s);

      if sz > space {
        overflow := true;
        sz := KeptLength(s, space);
      }
      assert sz == Kept(size, p0, s);
      AppendKeeps(size, p0, s);
      assert CStr(s)[..sz] == s[..sz];
      Copy(s, sz);
    }

    /**
     * The copy loop closing add_str: emit the first `sz` bytes of `s` at the offset,
     * counting the code points they start, and advance the offset.
     */
    method Copy(s: seq<Byte>, sz: nat)
      requires Valid()
      requires sz <= |s| && off + sz <= size
      requires dst != null ==> off + sz <= dst.Length
      modifies this`ulen, this`off, this`written, dst
      ensures Valid()
      ensures written == old(written) + s[..sz] && ulen == old(ulen) + Leads(s[..sz])
      ensures dst != null ==> forall j | off <= j < dst.Length :: dst[j] == old(dst[j])
    {
      ghost var before := if dst != null then dst[..] else [];
      var i := 0;
      while i < sz
        modifies this`ulen, dst
        invariant 0 <= i <= sz
        invariant ulen == old(ulen) + Leads(s[..i])
        invariant dst != null ==> forall j | 0 <= j < dst.Length ::
          dst[j] == if off <= j < off + i then s[j - off] else before[j]
      {
        LeadsExtend(s, i);
        if !IsCont(s[i]) {
          ulen := ulen + 1;
        }
        if dst != null {
          dst[off + i] := s[i];
        }
        i := i + 1;
      }
      if dst != null {
        assert dst[..off + sz] == written + s[..sz];
      }
      written := written + s[..sz];
      off := off + sz;
    }

    /** add_ch: the one-byte C string {c, 0}. */
    method AddCh(c: Byte)
      requires Valid()
      requires dst != null ==> |Append(size, State(), [c]).out| <= dst.Length
      modifies this, dst
      ensures Valid()
      ensures State() == Append(size, old(State()), [c])
      ensures dst != null ==> forall j | off <= j < dst.Length :: dst[j] == old(dst[j])
    {
      if c == 0 {
        assert CStrLen([c, 0]) == 0 && CStrLen([c]) == 0;
      } else {
        assert CStrLen([c, 0]) == 1 && CStrLen([c]) == 1;
      }
      assert CStr([c, 0]) == CStr([c]);
      AddStr([c, 0]);
    }

    /**
     * inspect_obj: render `v`. The state ends as Render.Obj says, and the pin set is what
     * it was.
     */
    method InspectObj(v: Id)
      requires Valid() && Closed(ctx.host) && v in ctx.host.objs
      requires dst != null ==> |Obj(size, State(), ctx.host, ctx.pins, v).out| <= dst.Length
      modifies this, ctx, dst
      ensures Valid() && ctx.pins == old(ctx.pins)
      ensures State() == Obj(size, old(State()), ctx.host, old(ctx.pins), v)
      ensures dst != null ==> forall j | off <= j < dst.Length :: dst[j] == old(dst[j])
      decreases Unpinned(ctx.host, ctx.pins), 0, 1
    {
      var h := ctx.host;

      if overflow {
        return;
      }

      if v in ctx.pins {
        AddStr(Circular);
        return;
      }

      var val := h.objs[v];

      if val.Str? {
        AddStr(h.escape(val.bytes));
        return;
      }

      if !IsComplex(TypeOf(val)) || val.RoleMember? {
        AddStr(ToString(val));
        return;
      }

      Expand(v);
    }

    /**
     * The rest of inspect_obj for an array or map that is not pinned: pin it, write its
     * brackets around its children, unpin it.
     */
    method Expand(v: Id)
      requires Valid() && Closed(ctx.host) && v in ctx.host.objs && v !in ctx.pins && !overflow
      requires ctx.host.objs[v].Arr? || ctx.host.objs[v].Map?
      requires dst != null ==> |Obj(size, State(), ctx.host, ctx.pins, v).out| <= dst.Length
      modifies this, ctx, dst
      ensures Valid() && ctx.pins == old(ctx.pins)
      ensures State() == Obj(size, old(State()), ctx.host, old(ctx.pins), v)
      ensures dst != null ==> forall j | off <= j < dst.Length :: dst[j] == old(dst[j])
      decreases Unpinned(ctx.host, ctx.pins), 0, 0
    {
      var val := ctx.host.objs[v];
      ghost var outer := ctx.pins;
      ghost var p0 := State();

      if val.Arr? {
        ObjOfArray(size, p0, ctx.host, outer, v);
        ctx.pins := ctx.pins + {v};
        AddCh(LBracket);
        InspectElems(val.elems);
        AddCh(RBracket);
      } else {
        ObjOfMap(size, p0, ctx.host, outer, v);
        ctx.pins := ctx.pins + {v};
        AddCh(LBrace);
        InspectEntries(val.entries);
        AddCh(RBrace);
      }

      ctx.pins := ctx.pins - {v};
      assert ctx.pins == outer;
    }

    /**
     * The element loop of inspect_obj: render each element, stop as soon as overflow is
     * set, and write a comma after every element but the last.
     */
    method InspectElems(es: seq<Id>)
      requires Valid() && Closed(ctx.host) && forall j | 0 <= j < |es| :: es[j] in ctx.host.objs
      requires dst != null ==> |Elems(size, State(), ctx.host, ctx.pins, es, 0).out| <= dst.Length
      modifies this, ctx, dst
      ensures Valid() && ctx.pins == old(ctx.pins)
      ensures State() == Elems(size, old(State()), ctx.host, old(ctx.pins), es, 0)
      ensures dst != null ==> forall j | off <= j < dst.Length :: dst[j] == old(dst[j])
      decreases Unpinned(ctx.host, ctx.pins), 1, |es|
    {
      var h := ctx.host;
      var pins := ctx.pins;
      ghost var target := Elems(size, State(), h, pins, es, 0);
      for i := 0 to |es|
        invariant Valid() && ctx.pins == pins
        invariant Elems(size, State(), h, pins, es, i) == target
        invariant dst != null ==> forall j | off <= j < dst.Length :: dst[j] == old(dst[j])
      {
        InspectObj(es[i]);
        if overflow {
          break;
        }
        if i != |es| - 1 {
          AddCh(Comma);
        }
      }
    }

    /** devs_maplike_iter with inspect_field as its callback: one call per entry, in enumeration order. */
    method InspectEntries(ents: seq<(Id, Id)>)
      requires Valid() && Closed(ctx.host)
      requires forall j | 0 <= j < |ents| :: ents[j].0 in ctx.host.objs && ents[j].1 in ctx.host.objs
      requires dst != null ==> |Fields(size, State(), ctx.host, ctx.pins, ents, 0).out| <= dst.Length
      modifies this, ctx, dst
      ensures Valid() && ctx.pins == old(ctx.pins)
      ensures State() == Fields(size, old(State()), ctx.host, old(ctx.pins), ents, 0)
      ensures dst != null ==> forall j | off <= j < dst.Length :: dst[j] == old(dst[j])
      decreases Unpinned(ctx.host, ctx.pins), 2, |ents|
    {
      var h := ctx.host;
      var pins := ctx.pins;
      ghost var target := Fields(size, State(), h, pins, ents, 0);
      for i := 0 to |ents|
        invariant Valid() && ctx.pins == pins
        invariant Fields(size, State(), h, pins, ents, i) == target
        invariant dst != null ==> forall j | off <= j < dst.Length :: dst[j] == old(dst[j])
      {
        InspectField(ents[i].0, ents[i].1);
      }
    }

    /** inspect_field: one map entry, skipped entirely once overflow is set. */
    method InspectField(k: Id, v: Id)
      requires Valid() && Closed(ctx.host) && k in ctx.host.objs && v in ctx.host.objs
      requires dst != null ==> |Field(size, State(), ctx.host, ctx.pins, k, v).out| <= dst.Length
      modifies this, ctx, dst
      ensures Valid() && ctx.pins == old(ctx.pins)
      ensures State() == Field(size, old(State()), ctx.host, old(ctx.pins), k, v)
      ensures dst != null ==> forall j | off <= j < dst.Length :: dst[j] == old(dst[j])
      decreases Unpinned(ctx.host, ctx.pins), 1, 0
    {
      if overflow {
        return;
      }
      var h := ctx.host;
      var key := h.objs[k];
      var id := false;
      if key.Str? {
        if IsId(key.bytes) {
          id := true;
          AddStr(key.bytes);
        }
      }
      if !id {
        InspectObj(k);
      }
      AddCh(Colon);
      InspectObj(v);
      AddCh(Comma);
    }
  }

  /**
   * devs_inspect_to: -1 for a budget below 10; otherwise render with three bytes held
   * back, report the length and code-point count of the text (with "..." on overflow)
   * and, when a destination is given, leave that text at its start and the rest of the
   * destination as it was.
   */
  method InspectTo(ctx: Ctx, v: Id, dst: array?<Byte>, size: nat) returns (r: int, ulen: nat)
    requires Closed(ctx.host) && v in ctx.host.objs
    requires dst != null && size >= MinSize ==> |Output(Pass(ctx.host, ctx.pins, v, size))| <= dst.Length
    modifies ctx, dst
    ensures ctx.pins == old(ctx.pins)
    ensures size < MinSize ==> r == -1 && ulen == 0
    ensures size >= MinSize ==>
      var p := Pass(ctx.host, ctx.pins, v, size);
      && r == |Output(p)| && ulen == OutputUlen(p)
      && (dst != null ==> dst[..r] == Output(p))
    ensures dst != null && size < MinSize ==> dst[..] == old(dst[..])
    ensures dst != null && size >= MinSize ==> 0 <= r <= dst.Length && dst[r..] == old(dst[r..])
    ensures size >= MinSize ==> 0 <= r <= size
  {
    if size < MinSize {
      return -1, 0;
    }
    var cap := size - 3;
    assert Pass(ctx.host, ctx.pins, v, size) == Obj(cap, Fresh, ctx.host, ctx.pins, v);
    var n;
    n, ulen := RunPass(ctx, v, dst, cap);
    r := n;
  }

  /**
   * The pass of devs_inspect_to once the budget is known to be large enough: render `v`
   * with capacity `cap` (the budget less three), then report.
   */
  method RunPass(ctx: Ctx, v: Id, dst: array?<Byte>, cap: nat) returns (r: nat, ulen: nat)
    requires Closed(ctx.host) && v in ctx.host.objs
    requires dst != null ==> |Output(Obj(cap, Fresh, ctx.host, ctx.pins, v))| <= dst.Length
    modifies ctx, dst
    ensures ctx.pins == old(ctx.pins)
    ensures var p := Obj(cap, Fresh, ctx.host, ctx.pins, v);
      && r == |Output(p)| && ulen == OutputUlen(p)
      && (dst != null ==> r <= dst.Length && dst[..r] == Output(p) && dst[r..] == old(dst[r..]))
    ensures r <= cap + 3
  {
    ghost var p := Obj(cap, Fresh, ctx.host, ctx.pins, v);
    ghost var before := if dst != null then dst[..] else [];
    var off, u, overflow := RenderPass(ctx, v, dst, cap);
    // JD_ASSERT(state.off + 3 <= size), with the budget `size` being cap + 3
    assert off + 3 <= cap + 3;
    ghost var middle := if dst != null then dst[..] else [];
    r, ulen := Report(dst, p, off, u, overflow);
    if dst != null {
      assert middle[r..] == middle[off..][r - off..] == before[off..][r - off..] == before[r..];
    }
  }

  /**
   * The end of devs_inspect_to once `p` is rendered: three more code points and "..."
   * after the bytes on overflow, and the length of the text.
   */
  method Report(dst: array?<Byte>, ghost p: Progress, off: nat, u: nat, overflow: bool) returns (r: nat, ulen: nat)
    requires off == |p.out| && u == p.ulen && overflow == p.overflow
    requires dst != null ==> |Output(p)| <= dst.Length && dst[..off] == p.out
    modifies dst
    ensures r == |Output(p)| && ulen == OutputUlen(p) && off <= r
    ensures dst != null ==> r <= dst.Length && dst[..r] == Output(p) && dst[r..] == old(dst[r..])
  {
    ulen := u;
    if overflow {
      ulen := ulen + 3;
    }

    if dst == null {
      r := if overflow then off + 3 else off;
      return;
    }

    r := off;
    if overflow {
      WriteEllipsis(dst, r);
      r := r + 3;
    }
  }

  /**
   * A fresh render state of capacity `cap` over `dst`, inspect_obj on `v`: the final
   * offset, code-point count and overflow flag, with the bytes at the start of `dst`.
   */
  method RenderPass(ctx: Ctx, v: Id, dst: array?<Byte>, cap: nat) returns (off: nat, ulen: nat, overflow: bool)
    requires Closed(ctx.host) && v in ctx.host.objs
    requires dst != null ==> |Obj(cap, Fresh, ctx.host, ctx.pins, v).out| <= dst.Length
    modifies ctx, dst
    ensures ctx.pins == old(ctx.pins)
    ensures var p := Obj(cap, Fresh, ctx.host, ctx.pins, v);
      && off == |p.out| && ulen == p.ulen && overflow == p.overflow
      && (dst != null ==> off <= dst.Length && dst[..off] == p.out && dst[off..] == old(dst[off..]))
  {
    ghost var before := if dst != null then dst[..] else [];
    var st := new Inspector(ctx, dst, cap);
    st.InspectObj(v);
    if dst != null {
      assert dst[st.off..] == before[st.off..];
    }
    off, ulen, overflow := st.off, st.ulen, st.overflow;
  }

  /** The three '.' bytes devs_inspect_to writes at offset `off` after an overflow. */
  method WriteEllipsis(dst: array<Byte>, off: nat)
    requires off + 3 <= dst.Length
    modifies dst
    ensures dst[..off + 3] == old(dst[..off]) + Ellipsis
    ensures dst[off + 3..] == old(dst[off + 3..])
  {
    dst[off] := '.' as int;
    dst[off + 1] := '.' as int;
    dst[off + 2] := '.' as int;
  }

  /** What devs_inspect returns. */
  datatype Outcome =
    | Coerced(text: seq<Byte>)                  // a value that is not complex: its string coercion
    | Undefined                                 // the budget was below 10
    | Inspected(text: seq<Byte>, ulen: nat)     // the string made from the second pass
    | PrepFailed                                // devs_string_prep gave no buffer

  /**
   * devs_inspect: a budget of 0 means 100; a value that is not complex is coerced to a
   * string; otherwise a measuring pass sizes a fresh buffer and a writing pass fills it.
   * `prepOk` says whether the string allocation succeeds.
   */
  method InspectValue(ctx: Ctx, v: Id, size: nat, prepOk: bool) returns (res: Outcome)
    requires Closed(ctx.host) && v in ctx.host.objs
    modifies ctx
    ensures ctx.pins == old(ctx.pins)
    ensures var budget := if size == 0 then DefaultSize else size; var val := ctx.host.objs[v];
      && (!IsComplex(TypeOf(val)) ==> res == Coerced(ToString(val)))
      && (IsComplex(TypeOf(val)) && budget < MinSize ==> res == Undefined)
      && (IsComplex(TypeOf(val)) && budget >= MinSize && !prepOk ==> res == PrepFailed)
      && (IsComplex(TypeOf(val)) && budget >= MinSize && prepOk ==>
            var p := Pass(ctx.host, ctx.pins, v, budget);
            res == Inspected(Output(p), OutputUlen(p)))
  {
    var budget := size;
    if budget == 0 {
      budget := DefaultSize;
    }
    var val := ctx.host.objs[v];
    if !IsComplex(TypeOf(val)) {
      return Coerced(ToString(val));
    }

    var sz, ulen := InspectTo(ctx, v, null, budget);
    if sz == -1 {
      return Undefined;
    }
    if !prepOk {
      return PrepFailed;
    }
    var d := new Byte[sz];
    var sz2, ulen2 := InspectTo(ctx, v, d, budget);
    // the writing pass reports what the measuring pass did
    assert sz2 == sz && ulen2 == ulen;
    res := Inspected(d[..sz2], ulen2);
  }
}
