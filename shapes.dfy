/**
 * The shapes of a complete rendering, as text: what a cycle, an array and a map entry
 * look like once every token is written out.
 */
module Shapes {
  import opened Text
  import opened Writer
  import opened Values
  import opened Layout


  /** An array whose only element is itself renders as "[[Circular]]". */
  lemma SelfCycle(h: Host, pins: set<Id>, a: Id)
    requires Closed(h) && a in h.objs && h.objs[a] == Arr([a]) && a !in pins
    ensures Rendering(h, pins, a) == [LBracket] + Circular + [RBracket]
  {
    PinShrinks(h, pins, a);
    var inner := ElemTokens(h, pins + {a}, [a], 0);
    assert Tokens(h, pins + {a}, a) == [Circular];
    assert [a][0] == a && Separator([a], 0) == [] && ElemTokens(h, pins + {a}, [a], 1) == [];
    assert inner == [Circular];
    assert Tokens(h, pins, a) == [[LBracket]] + inner + [[RBracket]];
    BracketedText(LBracket, RBracket, inner);
    FlatOne(Circular);
    CircularIsAscii();
  }

  /** Tokens between a pair of one-byte tokens: the bytes, the text of the tokens, the closing byte. */
  lemma BracketedText(open: Byte, close: Byte, body: seq<seq<Byte>>)
    requires open != 0 && close != 0
    ensures Flat([[open]] + body + [[close]]) == [open] + Flat(body) + [close]
  {
    FlatConcat([[open]] + body, [[close]]);
    FlatConcat([[open]], body);
    ByteText(open);
    ByteText(close);
  }

  /** The elements of an array from index `i` on, as text: each rendering, then a comma unless it is the last. */
  function ElemsText(h: Host, pins: set<Id>, es: seq<Id>, i: nat): seq<Byte>
    requires Closed(h) && forall j | 0 <= j < |es| :: es[j] in h.objs
    decreases |es| - i
  {
    if i >= |es| then []
    else Rendering(h, pins, es[i]) + (if i != |es| - 1 then [Comma] else []) + ElemsText(h, pins, es, i + 1)
  }

  lemma {:induction false} ElemTokensText(h: Host, pins: set<Id>, es: seq<Id>, i: nat)
    requires Closed(h) && forall j | 0 <= j < |es| :: es[j] in h.objs
    ensures Flat(ElemTokens(h, pins, es, i)) == ElemsText(h, pins, es, i)
    decreases |es| - i
  {
    if i < |es| {
      var elem := Tokens(h, pins, es[i]);
      var sep := Separator(es, i);
      var rest := ElemTokens(h, pins, es, i + 1);
      var sepText: seq<Byte> := if i != |es| - 1 then [Comma] else [];
      assert ElemTokens(h, pins, es, i) == elem + sep + rest;
      FlatConcat(elem + sep, rest);
      FlatConcat(elem, sep);
      if i != |es| - 1 {
        ByteText(Comma);
      }
      assert Flat(sep) == sepText;
      ElemTokensText(h, pins, es, i + 1);
      assert Flat(elem) == Rendering(h, pins, es[i]);
    }
  }

  /** A one-byte token other than NUL stands for itself. */
  lemma ByteText(c: Byte)
    requires c != 0
    ensures Flat([[c]]) == [c]
  {
    FlatOne([c]);
    assert CStrLen([c]) == 1;
  }

  /**
   * An array that is not being expanded renders as "[", its elements rendered with the
   * array pinned and separated by commas, then "]": no comma after the last element.
   */
  lemma ArrayText(h: Host, pins: set<Id>, a: Id)
    requires Closed(h) && a in h.objs && h.objs[a].Arr? && a !in pins
    ensures Rendering(h, pins, a) == [LBracket] + ElemsText(h, pins + {a}, h.objs[a].elems, 0) + [RBracket]
  {
    var es := h.objs[a].elems;
    PinShrinks(h, pins, a);
    var body := ElemTokens(h, pins + {a}, es, 0);
    assert Tokens(h, pins, a) == [[LBracket]] + body + [[RBracket]];
    BracketedText(LBracket, RBracket, body);
    ElemTokensText(h, pins + {a}, es, 0);
  }

  /**
   * One map entry as text: the key bare when it is a string that passes is_id, rendered
   * otherwise; then ":", the rendered value and an unconditional ",".
   */
  function EntryText(h: Host, pins: set<Id>, k: Id, v: Id): seq<Byte>
    requires Closed(h) && k in h.objs && v in h.objs
  {
    var key := h.objs[k];
    (if key.Str? && IsId(key.bytes) then key.bytes else Rendering(h, pins, k))
    + [Colon] + Rendering(h, pins, v) + [Comma]
  }

  lemma FieldText(h: Host, pins: set<Id>, k: Id, v: Id)
    requires Closed(h) && k in h.objs && v in h.objs
    ensures Flat(FieldTokens(h, pins, k, v)) == EntryText(h, pins, k, v)
  {
    var key := h.objs[k];
    var keyToks := if key.Str? && IsId(key.bytes) then [key.bytes] else Tokens(h, pins, k);
    var keyText := if key.Str? && IsId(key.bytes) then key.bytes else Rendering(h, pins, k);
    var valToks := Tokens(h, pins, v);
    assert FieldTokens(h, pins, k, v) == keyToks + [[Colon]] + valToks + [[Comma]];
    FlatConcat(keyToks + [[Colon]] + valToks, [[Comma]]);
    FlatConcat(keyToks + [[Colon]], valToks);
    FlatConcat(keyToks, [[Colon]]);
    ByteText(Colon);
    ByteText(Comma);
    if key.Str? && IsId(key.bytes) {
      FlatOne(key.bytes);
      BarewordIsAscii(key.bytes);
    }
    assert Flat(keyToks) == keyText;
  }

  /** The entries of a map from index `i` on, as text. */
  function EntriesText(h: Host, pins: set<Id>, ents: seq<(Id, Id)>, i: nat): seq<Byte>
    requires Closed(h) && forall j | 0 <= j < |ents| :: ents[j].0 in h.objs && ents[j].1 in h.objs
    decreases |ents| - i
  {
    if i >= |ents| then [] else EntryText(h, pins, ents[i].0, ents[i].1) + EntriesText(h, pins, ents, i + 1)
  }

  lemma {:induction false} FieldsTokensText(h: Host, pins: set<Id>, ents: seq<(Id, Id)>, i: nat)
    requires Closed(h) && forall j | 0 <= j < |ents| :: ents[j].0 in h.objs && ents[j].1 in h.objs
    ensures Flat(FieldsTokens(h, pins, ents, i)) == EntriesText(h, pins, ents, i)
    decreases |ents| - i
  {
    if i < |ents| {
      FlatConcat(FieldTokens(h, pins, ents[i].0, ents[i].1), FieldsTokens(h, pins, ents, i + 1));
      FieldText(h, pins, ents[i].0, ents[i].1);
      FieldsTokensText(h, pins, ents, i + 1);
    }
  }

  /**
   * A map that is not being expanded renders as "{", every entry with a trailing comma
   * (the last one included), then "}".
   */
  lemma MapText(h: Host, pins: set<Id>, m: Id)
    requires Closed(h) && m in h.objs && h.objs[m].Map? && m !in pins
    ensures Rendering(h, pins, m) == [LBrace] + EntriesText(h, pins + {m}, h.objs[m].entries, 0) + [RBrace]
  {
    var ents := h.objs[m].entries;
    PinShrinks(h, pins, m);
    var body := FieldsTokens(h, pins + {m}, ents, 0);
    assert Tokens(h, pins, m) == [[LBrace]] + body + [[RBrace]];
    BracketedText(LBrace, RBrace, body);
    FieldsTokensText(h, pins + {m}, ents, 0);
  }
}
