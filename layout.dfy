/**
 * The text the inspector renders for a value, before any size budget applies, as the
 * sequence of C strings its renderer hands to add_str (inspect_obj, inspect_field and
 * is_id in runtime/devicescript/inspect.c).
 */
module Layout {
  import opened Text
  import opened Writer
  import opened Values

  const LBracket: Byte := '[' as int
  const RBracket: Byte := ']' as int
  const LBrace: Byte := '{' as int
  const RBrace: Byte := '}' as int
  const Comma: Byte := ',' as int
  const Colon: Byte := ':' as int

  /** The marker for a value met again while it is being expanded: "[Circular]". */
  const Circular: seq<Byte> := [0x5B, 0x43, 0x69, 0x72, 0x63, 0x75, 0x6C, 0x61, 0x72, 0x5D]

  /** A byte a bareword may hold at position `i`: a letter or `_`, or a digit after the first. */
  predicate IsIdByte(c: Byte, i: nat) {
    ('a' as int <= c <= 'z' as int) || ('A' as int <= c <= 'Z' as int)
    || (i > 0 && '0' as int <= c <= '9' as int) || c == '_' as int
  }

  /** The scan of is_id from position `i` on. */
  function IsIdFrom(p: seq<Byte>, i: nat): (r: bool)
    requires i <= |p|
    ensures r <==> forall j | i <= j < |p| :: IsIdByte(p[j], j)
    decreases |p| - i
  {
    i == |p| || (IsIdByte(p[i], i) && IsIdFrom(p, i + 1))
  }

  /** is_id: whether a map key can be written without quotes. The empty key passes. */
  function IsId(p: seq<Byte>): bool {
    IsIdFrom(p, 0)
  }

  /** A bareword is plain ASCII without NUL, so it is written whole and is well-framed. */
  lemma BarewordIsAscii(p: seq<Byte>)
    requires IsId(p)
    ensures CStr(p) == p && Utf8(CStr(p))
  {
    assert forall j | 0 <= j < |p| :: IsIdByte(p[j], j);
    CStrOfNulFree(p);
    AsciiIsUtf8(p);
  }

  lemma BarewordExamples()
    ensures IsId([])
    ensures IsId(['f' as int, 'o' as int, 'o' as int])
    ensures IsId(['_' as int, 'a' as int, '1' as int])
    ensures !IsId(['1' as int, 'a' as int, 'b' as int, 'c' as int])
    ensures !IsId(['a' as int, '-' as int])
  {
    var digitFirst: seq<Byte> := ['1' as int, 'a' as int, 'b' as int, 'c' as int];
    assert !IsIdByte(digitFirst[0], 0);
    var dash: seq<Byte> := ['a' as int, '-' as int];
    assert !IsIdByte(dash[1], 1);
  }

  /**
   * The complete rendering of `v` while the handles in `pins` are being expanded: a pinned
   * value is "[Circular]", a string its JSON escape, a scalar or role member its string
   * coercion, an array or map its bracketed children, rendered with `v` pinned.
   */
  function Tokens(h: Host, pins: set<Id>, v: Id): seq<seq<Byte>>
    requires Closed(h) && v in h.objs
    decreases Unpinned(h, pins), 0, 0
  {
    if v in pins then [Circular]
    else
      match h.objs[v]
      case Str(b) => [h.escape(b)]
      case Scalar(t) => [t]
      case RoleMember(t) => [t]
      case Arr(es) =>
        PinShrinks(h, pins, v);
        [[LBracket]] + ElemTokens(h, pins + {v}, es, 0) + [[RBracket]]
      case Map(ents) =>
        PinShrinks(h, pins, v);
        [[LBrace]] + FieldsTokens(h, pins + {v}, ents, 0) + [[RBrace]]
  }

  /** Array elements from index `i` on, a comma after each but the last. */
  function ElemTokens(h: Host, pins: set<Id>, es: seq<Id>, i: nat): seq<seq<Byte>>
    requires Closed(h) && forall j | 0 <= j < |es| :: es[j] in h.objs
    decreases Unpinned(h, pins), 1, |es| - i
  {
    if i >= |es| then []
    else Tokens(h, pins, es[i]) + Separator(es, i) + ElemTokens(h, pins, es, i + 1)
  }

  /** The comma after element `i` of an array, none after the last one. */
  function Separator(es: seq<Id>, i: nat): seq<seq<Byte>> {
    if i != |es| - 1 then [[Comma]] else []
  }

  /** One map entry: bareword or rendered key, a colon, the rendered value, a comma. */
  function FieldTokens(h: Host, pins: set<Id>, k: Id, v: Id): seq<seq<Byte>>
    requires Closed(h) && k in h.objs && v in h.objs
    decreases Unpinned(h, pins), 1, 0
  {
    var key := h.objs[k];
    (if key.Str? && IsId(key.bytes) then [key.bytes] else Tokens(h, pins, k))
    + [[Colon]] + Tokens(h, pins, v) + [[Comma]]
  }

  /** Map entries from index `i` on. */
  function FieldsTokens(h: Host, pins: set<Id>, ents: seq<(Id, Id)>, i: nat): seq<seq<Byte>>
    requires Closed(h) && forall j | 0 <= j < |ents| :: ents[j].0 in h.objs && ents[j].1 in h.objs
    decreases Unpinned(h, pins), 2, |ents| - i
  {
    if i >= |ents| then []
    else FieldTokens(h, pins, ents[i].0, ents[i].1) + FieldsTokens(h, pins, ents, i + 1)
  }

  /** The complete, untruncated rendering of `v` as one text. */
  function Rendering(h: Host, pins: set<Id>, v: Id): seq<Byte>
    requires Closed(h) && v in h.objs
  {
    Flat(Tokens(h, pins, v))
  }

  /** "[Circular]" is written whole and is well-framed. */
  lemma CircularIsAscii()
    ensures CStr(Circular) == Circular && Utf8(Circular)
  {
    var c := Circular;
    assert forall i | 0 <= i < |c| :: 0 < c[i] < 0x80;
    CStrOfNulFree(c);
    AsciiIsUtf8(c);
  }

  lemma OneUtf8(t: seq<Byte>)
    requires Utf8(CStr(t))
    ensures AllUtf8([t])
  {
    assert [t][0] == t;
  }

  /** Well-framed tokens between two one-byte ASCII tokens stay well-framed. */
  lemma BracketedUtf8(open: Byte, close: Byte, body: seq<seq<Byte>>)
    requires 0 < open < 0x80 && 0 < close < 0x80 && AllUtf8(body)
    ensures AllUtf8([[open]] + body + [[close]])
  {
    AsciiTokenUtf8(open);
    AsciiTokenUtf8(close);
    AllUtf8Concat([[open]], body);
    AllUtf8Concat([[open]] + body, [[close]]);
  }

  /** On a well-framed heap, every token of a rendering is well-framed. */
  lemma {:induction false} TokensUtf8(h: Host, pins: set<Id>, v: Id)
    requires Closed(h) && Framed(h) && v in h.objs
    ensures AllUtf8(Tokens(h, pins, v))
    decreases Unpinned(h, pins), 0, 0
  {
    if v in pins {
      CircularIsAscii();
      OneUtf8(Circular);
    } else {
      var val := h.objs[v];
      assert TextFramed(h, val);
      if val.Arr? {
        PinShrinks(h, pins, v);
        var body := ElemTokens(h, pins + {v}, val.elems, 0);
        ElemTokensUtf8(h, pins + {v}, val.elems, 0);
        BracketedUtf8(LBracket, RBracket, body);
        assert Tokens(h, pins, v) == [[LBracket]] + body + [[RBracket]];
      } else if val.Map? {
        PinShrinks(h, pins, v);
        var body := FieldsTokens(h, pins + {v}, val.entries, 0);
        FieldsTokensUtf8(h, pins + {v}, val.entries, 0);
        BracketedUtf8(LBrace, RBrace, body);
        assert Tokens(h, pins, v) == [[LBrace]] + body + [[RBrace]];
      } else if val.Str? {
        OneUtf8(h.escape(val.bytes));
        assert Tokens(h, pins, v) == [h.escape(val.bytes)];
      } else {
        OneUtf8(val.text);
        assert Tokens(h, pins, v) == [val.text];
      }
    }
  }

  lemma {:induction false} ElemTokensUtf8(h: Host, pins: set<Id>, es: seq<Id>, i: nat)
    requires Closed(h) && Framed(h) && forall j | 0 <= j < |es| :: es[j] in h.objs
    ensures AllUtf8(ElemTokens(h, pins, es, i))
    decreases Unpinned(h, pins), 1, |es| - i
  {
    if i < |es| {
      TokensUtf8(h, pins, es[i]);
      AsciiTokenUtf8(Comma);
      ElemTokensUtf8(h, pins, es, i + 1);
      AllUtf8Concat(Tokens(h, pins, es[i]), Separator(es, i));
      AllUtf8Concat(Tokens(h, pins, es[i]) + Separator(es, i), ElemTokens(h, pins, es, i + 1));
    }
  }

  lemma {:induction false} FieldTokensUtf8(h: Host, pins: set<Id>, k: Id, v: Id)
    requires Closed(h) && Framed(h) && k in h.objs && v in h.objs
    ensures AllUtf8(FieldTokens(h, pins, k, v))
    decreases Unpinned(h, pins), 1, 0
  {
    var key := h.objs[k];
    var keyToks := if key.Str? && IsId(key.bytes) then [key.bytes] else Tokens(h, pins, k);
    if key.Str? && IsId(key.bytes) {
      BarewordIsAscii(key.bytes);
      assert keyToks[0] == key.bytes;
    } else {
      TokensUtf8(h, pins, k);
    }
    TokensUtf8(h, pins, v);
    AsciiTokenUtf8(Colon);
    AsciiTokenUtf8(Comma);
    AllUtf8Concat(keyToks, [[Colon]]);
    AllUtf8Concat(keyToks + [[Colon]], Tokens(h, pins, v));
    AllUtf8Concat(keyToks + [[Colon]] + Tokens(h, pins, v), [[Comma]]);
  }

  lemma {:induction false} FieldsTokensUtf8(h: Host, pins: set<Id>, ents: seq<(Id, Id)>, i: nat)
    requires Closed(h) && Framed(h)
    requires forall j | 0 <= j < |ents| :: ents[j].0 in h.objs && ents[j].1 in h.objs
    ensures AllUtf8(FieldsTokens(h, pins, ents, i))
    decreases Unpinned(h, pins), 2, |ents| - i
  {
    if i < |ents| {
      FieldTokensUtf8(h, pins, ents[i].0, ents[i].1);
      FieldsTokensUtf8(h, pins, ents, i + 1);
      AllUtf8Concat(FieldTokens(h, pins, ents[i].0, ents[i].1), FieldsTokens(h, pins, ents, i + 1));
    }
  }
}
