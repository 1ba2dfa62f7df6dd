/**
 * What inspect_obj and inspect_field do to a render state, step by step, as functions on
 * the abstract state; proved equal to writing the complete token stream of Layout.
 */
module Render {
  import opened Text
  import opened Writer
  import opened Values
  import opened Layout

  /**
   * inspect_obj from state `p`: nothing once overflow is set; "[Circular]" for a pinned
   * value; the escaped string; the string coercion of a scalar or role member; or the
   * bracketed children, rendered with `v` pinned.
   */
  function Obj(cap: nat, p: Progress, h: Host, pins: set<Id>, v: Id): (r: Progress)
    requires |p.out| <= cap && Closed(h) && v in h.objs
    ensures |r.out| <= cap && p.out <= r.out
    ensures p.overflow ==> r == p
    decreases Unpinned(h, pins), 0, 0
  {
    if p.overflow then p
    else if v in pins then Append(cap, p, Circular)
    else
      var val := h.objs[v];
      if val.Str? then Append(cap, p, h.escape(val.bytes))
      else if !IsComplex(TypeOf(val)) || val.RoleMember? then Append(cap, p, ToString(val))
      else
        PinShrinks(h, pins, v);
        if val.Arr? then
          Append(cap, Elems(cap, Append(cap, p, [LBracket]), h, pins + {v}, val.elems, 0), [RBracket])
        else
          Append(cap, Fields(cap, Append(cap, p, [LBrace]), h, pins + {v}, val.entries, 0), [RBrace])
  }

  /**
   * The array loop of inspect_obj from element `i` on: render the element, stop as soon
   * as overflow is set, and write a comma after every element but the last.
   */
  function Elems(cap: nat, p: Progress, h: Host, pins: set<Id>, es: seq<Id>, i: nat): (r: Progress)
    requires |p.out| <= cap && Closed(h) && forall j | 0 <= j < |es| :: es[j] in h.objs
    ensures |r.out| <= cap && p.out <= r.out
    ensures p.overflow ==> r == p
    decreases Unpinned(h, pins), 1, |es| - i
  {
    if i >= |es| then p
    else
      var q := Obj(cap, p, h, pins, es[i]);
      if q.overflow then q
      else Elems(cap, AfterElem(cap, q, es, i), h, pins, es, i + 1)
  }

  /** The state after the comma that follows element `i`; no comma after the last one. */
  function AfterElem(cap: nat, q: Progress, es: seq<Id>, i: nat): (r: Progress)
    requires |q.out| <= cap
    ensures r == FeedAll(cap, q, Separator(es, i))
  {
    FeedAllOne(cap, q, [Comma]);
    if i != |es| - 1 then Append(cap, q, [Comma]) else q
  }

  /**
   * inspect_field: nothing once overflow is set; otherwise the key (bare when it is a
   * string that passes is_id, rendered otherwise), a colon, the value and a comma.
   */
  function Field(cap: nat, p: Progress, h: Host, pins: set<Id>, k: Id, v: Id): (r: Progress)
    requires |p.out| <= cap && Closed(h) && k in h.objs && v in h.objs
    ensures |r.out| <= cap && p.out <= r.out
    ensures p.overflow ==> r == p
    decreases Unpinned(h, pins), 1, 0
  {
    if p.overflow then p
    else
      var key := h.objs[k];
      var q := if key.Str? && IsId(key.bytes) then Append(cap, p, key.bytes) else Obj(cap, p, h, pins, k);
      Append(cap, Obj(cap, Append(cap, q, [Colon]), h, pins, v), [Comma])
  }

  /** The map enumeration from entry `i` on: inspect_field once per entry, in order. */
  function Fields(cap: nat, p: Progress, h: Host, pins: set<Id>, ents: seq<(Id, Id)>, i: nat): (r: Progress)
    requires |p.out| <= cap && Closed(h)
    requires forall j | 0 <= j < |ents| :: ents[j].0 in h.objs && ents[j].1 in h.objs
    ensures |r.out| <= cap && p.out <= r.out
    ensures p.overflow ==> r == p
    decreases Unpinned(h, pins), 2, |ents| - i
  {
    if i >= |ents| then p
    else Fields(cap, Field(cap, p, h, pins, ents[i].0, ents[i].1), h, pins, ents, i + 1)
  }

  /** inspect_obj on an array that is not pinned: "[", the element loop with it pinned, "]". */
  lemma ObjOfArray(cap: nat, p: Progress, h: Host, pins: set<Id>, v: Id)
    requires |p.out| <= cap && Closed(h) && v in h.objs && h.objs[v].Arr? && v !in pins && !p.overflow
    ensures Unpinned(h, pins + {v}) < Unpinned(h, pins)
    ensures Obj(cap, p, h, pins, v)
      == Append(cap, Elems(cap, Append(cap, p, [LBracket]), h, pins + {v}, h.objs[v].elems, 0), [RBracket])
  {
    PinShrinks(h, pins, v);
    var val := h.objs[v];
    assert !val.Str? && IsComplex(TypeOf(val)) && !val.RoleMember?;
  }

  /** inspect_obj on a map that is not pinned: "{", the entries with it pinned, "}". */
  lemma ObjOfMap(cap: nat, p: Progress, h: Host, pins: set<Id>, v: Id)
    requires |p.out| <= cap && Closed(h) && v in h.objs && h.objs[v].Map? && v !in pins && !p.overflow
    ensures Unpinned(h, pins + {v}) < Unpinned(h, pins)
    ensures Obj(cap, p, h, pins, v)
      == Append(cap, Fields(cap, Append(cap, p, [LBrace]), h, pins + {v}, h.objs[v].entries, 0), [RBrace])
  {
    PinShrinks(h, pins, v);
    var val := h.objs[v];
    assert !val.Str? && IsComplex(TypeOf(val)) && !val.RoleMember?;
  }

  /** Rendering `v` step by step writes exactly its token stream. */
  lemma {:induction false} ObjIsFeedAll(cap: nat, p: Progress, h: Host, pins: set<Id>, v: Id)
    requires |p.out| <= cap && Closed(h) && v in h.objs
    ensures Obj(cap, p, h, pins, v) == FeedAll(cap, p, Tokens(h, pins, v))
    decreases Unpinned(h, pins), 0, 0
  {
    var toks := Tokens(h, pins, v);
    if p.overflow {
    } else if v in pins {
      FeedAllOne(cap, p, Circular);
    } else {
      var val := h.objs[v];
      if val.Str? {
        FeedAllOne(cap, p, h.escape(val.bytes));
      } else if !IsComplex(TypeOf(val)) || val.RoleMember? {
        assert toks == [ToString(val)];
        FeedAllOne(cap, p, ToString(val));
      } else {
        PinShrinks(h, pins, v);
        var (open, close, body) :=
          if val.Arr? then (LBracket, RBracket, ElemTokens(h, pins + {v}, val.elems, 0))
          else (LBrace, RBrace, FieldsTokens(h, pins + {v}, val.entries, 0));
        assert toks == [[open]] + body + [[close]];
        FeedAllConcat(cap, p, [[open]] + body, [[close]]);
        FeedAllConcat(cap, p, [[open]], body);
        FeedAllOne(cap, p, [open]);
        var q := Append(cap, p, [open]);
        FeedAllOne(cap, FeedAll(cap, q, body), [close]);
        if val.Arr? {
          ElemsIsFeedAll(cap, q, h, pins + {v}, val.elems, 0);
        } else {
          FieldsIsFeedAll(cap, q, h, pins + {v}, val.entries, 0);
        }
      }
    }
  }

  lemma {:induction false} ElemsIsFeedAll(cap: nat, p: Progress, h: Host, pins: set<Id>, es: seq<Id>, i: nat)
    requires |p.out| <= cap && Closed(h) && forall j | 0 <= j < |es| :: es[j] in h.objs
    ensures Elems(cap, p, h, pins, es, i) == FeedAll(cap, p, ElemTokens(h, pins, es, i))
    decreases Unpinned(h, pins), 1, |es| - i
  {
    if i < |es| {
      ObjIsFeedAll(cap, p, h, pins, es[i]);
      ElemTokensStep(cap, p, h, pins, es, i);
      var q := Obj(cap, p, h, pins, es[i]);
      if !q.overflow {
        ElemsIsFeedAll(cap, AfterElem(cap, q, es, i), h, pins, es, i + 1);
      }
    }
  }

  /** Writing the tokens of the elements from `i` on: element `i`, then the rest unless it overflowed. */
  lemma ElemTokensStep(cap: nat, p: Progress, h: Host, pins: set<Id>, es: seq<Id>, i: nat)
    requires |p.out| <= cap && Closed(h) && forall j | 0 <= j < |es| :: es[j] in h.objs
    requires i < |es|
    ensures var q := FeedAll(cap, p, Tokens(h, pins, es[i]));
      FeedAll(cap, p, ElemTokens(h, pins, es, i))
      == if q.overflow then q else FeedAll(cap, AfterElem(cap, q, es, i), ElemTokens(h, pins, es, i + 1))
  {
    var elem := Tokens(h, pins, es[i]);
    var sep := Separator(es, i);
    var rest := ElemTokens(h, pins, es, i + 1);
    assert ElemTokens(h, pins, es, i) == elem + (sep + rest);
    FeedAllConcat(cap, p, elem, sep + rest);
    var q := FeedAll(cap, p, elem);
    if !q.overflow {
      FeedAllConcat(cap, q, sep, rest);
    }
  }

  lemma {:induction false} FieldIsFeedAll(cap: nat, p: Progress, h: Host, pins: set<Id>, k: Id, v: Id)
    requires |p.out| <= cap && Closed(h) && k in h.objs && v in h.objs
    ensures Field(cap, p, h, pins, k, v) == FeedAll(cap, p, FieldTokens(h, pins, k, v))
    decreases Unpinned(h, pins), 1, 0
  {
    if !p.overflow {
      var key := h.objs[k];
      var keyToks := if key.Str? && IsId(key.bytes) then [key.bytes] else Tokens(h, pins, k);
      var valToks := Tokens(h, pins, v);
      assert FieldTokens(h, pins, k, v) == keyToks + ([[Colon]] + (valToks + [[Comma]]));
      FeedAllConcat(cap, p, keyToks, [[Colon]] + (valToks + [[Comma]]));
      if key.Str? && IsId(key.bytes) {
        FeedAllOne(cap, p, key.bytes);
      } else {
        ObjIsFeedAll(cap, p, h, pins, k);
      }
      var q := FeedAll(cap, p, keyToks);
      FeedAllConcat(cap, q, [[Colon]], valToks + [[Comma]]);
      FeedAllOne(cap, q, [Colon]);
      var c := Append(cap, q, [Colon]);
      FeedAllConcat(cap, c, valToks, [[Comma]]);
      ObjIsFeedAll(cap, c, h, pins, v);
      FeedAllOne(cap, Obj(cap, c, h, pins, v), [Comma]);
    }
  }

  lemma {:induction false} FieldsIsFeedAll(cap: nat, p: Progress, h: Host, pins: set<Id>, ents: seq<(Id, Id)>, i: nat)
    requires |p.out| <= cap && Closed(h)
    requires forall j | 0 <= j < |ents| :: ents[j].0 in h.objs && ents[j].1 in h.objs
    ensures Fields(cap, p, h, pins, ents, i) == FeedAll(cap, p, FieldsTokens(h, pins, ents, i))
    decreases Unpinned(h, pins), 2, |ents| - i
  {
    if i < |ents| {
      var field := FieldTokens(h, pins, ents[i].0, ents[i].1);
      var rest := FieldsTokens(h, pins, ents, i + 1);
      FeedAllConcat(cap, p, field, rest);
      FieldIsFeedAll(cap, p, h, pins, ents[i].0, ents[i].1);
      FieldsIsFeedAll(cap, Field(cap, p, h, pins, ents[i].0, ents[i].1), h, pins, ents, i + 1);
    }
  }

  /** The smallest budget devs_inspect_to accepts: below it, it returns -1. */
  const MinSize: nat := 10

  /** The budget devs_inspect uses when it is given 0. */
  const DefaultSize: nat := 100

  /** The render pass of devs_inspect_to on budget `size`: capacity `size - 3` from a fresh state. */
  function Pass(h: Host, pins: set<Id>, v: Id, size: nat): Progress
    requires Closed(h) && v in h.objs && size >= 3
  {
    Obj(size - 3, Fresh, h, pins, v)
  }

  /**
   * What devs_inspect_to reports after its pass from a fresh state with capacity `cap`
   * (the budget less the three bytes held back), against the complete rendering: at most
   * `cap + 3` bytes; the complete rendering when it fits in `cap` bytes, and otherwise a
   * prefix of it followed by "...".
   */
  lemma {:induction false} PassMeaning(h: Host, pins: set<Id>, v: Id, cap: nat)
    requires Closed(h) && v in h.objs
    ensures var p := Obj(cap, Fresh, h, pins, v); var o := Output(p); var full := Rendering(h, pins, v);
      && |o| <= cap + 3
      && (p.overflow <==> |full| > cap)
      && (!p.overflow ==> o == full)
      && (p.overflow ==> |o| >= 3 && o[..|o| - 3] <= full && o[|o| - 3..] == Ellipsis)
  {
    ObjIsFeedAll(cap, Fresh, h, pins, v);
    OutputMeaning(cap, Tokens(h, pins, v));
  }

  /** The code-point count devs_inspect_to reports is that of the text it reports. */
  lemma {:induction false} PassCount(h: Host, pins: set<Id>, v: Id, cap: nat)
    requires Closed(h) && v in h.objs
    ensures var p := Obj(cap, Fresh, h, pins, v); OutputUlen(p) == Leads(Output(p))
  {
    ObjIsFeedAll(cap, Fresh, h, pins, v);
    OutputCount(cap, Tokens(h, pins, v));
  }

  /** On a well-framed heap, the reported text never ends in, or holds, a partial code point. */
  lemma {:induction false} PassUtf8(h: Host, pins: set<Id>, v: Id, cap: nat)
    requires Closed(h) && Framed(h) && v in h.objs
    ensures Utf8(Output(Obj(cap, Fresh, h, pins, v)))
  {
    var p := Obj(cap, Fresh, h, pins, v);
    ObjIsFeedAll(cap, Fresh, h, pins, v);
    TokensUtf8(h, pins, v);
    FeedAllKeepsUtf8(cap, Fresh, Tokens(h, pins, v));
    if p.overflow {
      AsciiIsUtf8(Ellipsis);
      Utf8Concat(p.out, Ellipsis);
    }
  }
}
