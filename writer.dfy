/**
 * The bounded writer of the inspector (add_str in runtime/devicescript/inspect.c),
 * stated on the abstract content of its render state.
 */
module Writer {
  import opened Text

  /**
   * What a render state holds, abstractly: the bytes emitted so far (their number is
   * the state's offset), the running code-point count and the sticky overflow flag.
   * In measure-only mode the bytes are counted but not stored; they are the same bytes.
   */
  datatype Progress = Progress(out: seq<Byte>, ulen: nat, overflow: bool)

  /** A fresh render state: nothing emitted, nothing counted, no overflow. */
  const Fresh := Progress([], 0, false)

  /**
   * The backward scan of add_str: from index `j` down, the first byte that starts a
   * code point; 0 when every byte down to index 0 is a continuation byte.
   */
  function LastLead(t: seq<Byte>, j: nat): (r: nat)
    requires j < |t|
    ensures r <= j
    ensures r == 0 || !IsCont(t[r])
    ensures forall i | r < i <= j :: IsCont(t[i])
  {
    if j == 0 || !IsCont(t[j]) then j else LastLead(t, j - 1)
  }

  /**
   * How many bytes of `t` add_str keeps when only `space` of them fit. If the last byte
   * that fits is ASCII, all `space` bytes are kept; otherwise the cut goes in front of
   * the lead byte of the code point holding that last byte, even when that code point
   * would have fitted completely.
   */
  function SafeCut(t: seq<Byte>, space: nat): (k: nat)
    requires space < |t|
    ensures k <= space
    ensures k == space <==> space == 0 || t[space - 1] < 0x80
    ensures k < space ==> (k == 0 || !IsCont(t[k])) && forall i | k < i < space :: IsCont(t[i])
  {
    if space == 0 || t[space - 1] < 0x80 then space else LastLead(t, space - 1)
  }

  /** Truncating well-framed text with SafeCut leaves well-framed text. */
  lemma SafeCutKeepsUtf8(t: seq<Byte>, space: nat)
    requires space < |t| && Utf8(t)
    ensures Utf8(t[..SafeCut(t, space)])
  {
    var k := SafeCut(t, space);
    if k == space && space > 0 {
      Utf8AsciiThenLead(t, space);
    }
    Utf8PrefixAtLead(t, k);
  }

  /** A complete two-byte code point that ends exactly at the limit is dropped as well. */
  lemma CompleteCodePointAtLimitDropped()
    ensures SafeCut([0x41, 0xC3, 0xA9, 0x42], 3) == 1
  {
  }

  /**
   * add_str(state, s) with capacity `cap`: nothing once overflow is set; otherwise the
   * whole C string if it fits, else overflow is raised and only the SafeCut prefix of
   * the part that would not fit is emitted. Every emitted non-continuation byte counts
   * as one code point.
   */
  function Append(cap: nat, p: Progress, s: seq<Byte>): (r: Progress)
    requires |p.out| <= cap
    ensures |r.out| <= cap && p.out <= r.out
    ensures p.overflow ==> r == p
  {
    if p.overflow then p
    else
      var t := CStr(s);
      var space := cap - |p.out|;
      if |t| <= space then
        Progress(p.out + t, p.ulen + Leads(t), false)
      else
        var k := SafeCut(t, space);
        Progress(p.out + t[..k], p.ulen + Leads(t[..k]), true)
  }

  /**
   * What one add_str does: if the text fits, exactly its bytes are appended and the
   * overflow flag keeps its value; otherwise overflow is raised and a prefix of the text
   * that fits is appended. The code-point count grows by the code points appended.
   */
  lemma AppendMeaning(cap: nat, p: Progress, s: seq<Byte>)
    requires |p.out| <= cap
    ensures var r := Append(cap, p, s);
      && (r.overflow <==> p.overflow || |p.out| + CStrLen(s) > cap)
      && (!r.overflow ==> r.out == p.out + CStr(s))
      && r.out <= p.out + CStr(s)
      && r.ulen == p.ulen + Leads(r.out[|p.out|..])
  {
    AppendText(cap, p, s);
    AppendCount(cap, p, s);
  }

  /** The bytes part of AppendMeaning. */
  lemma AppendText(cap: nat, p: Progress, s: seq<Byte>)
    requires |p.out| <= cap
    ensures var r := Append(cap, p, s);
      && (r.overflow <==> p.overflow || |p.out| + CStrLen(s) > cap)
      && (!r.overflow ==> r.out == p.out + CStr(s))
      && r.out <= p.out + CStr(s)
  {
    if !p.overflow {
      var t := CStr(s);
      var space := cap - |p.out|;
      if |t| > space {
        var k := SafeCut(t, space);
        assert (p.out + t)[..|p.out| + k] == p.out + t[..k];
      }
    }
  }

  /** The counting part of AppendMeaning. */
  lemma AppendCount(cap: nat, p: Progress, s: seq<Byte>)
    requires |p.out| <= cap
    ensures var r := Append(cap, p, s); r.ulen == p.ulen + Leads(r.out[|p.out|..])
  {
    if !p.overflow {
      var t := CStr(s);
      var space := cap - |p.out|;
      if |t| <= space {
        assert (p.out + t)[|p.out|..] == t;
      } else {
        var k := SafeCut(t, space);
        assert (p.out + t[..k])[|p.out|..] == t[..k];
      }
    }
  }

  /** How many bytes of the C string `s` add_str keeps when overflow is not yet set. */
  function Kept(cap: nat, p: Progress, s: seq<Byte>): (k: nat)
    requires |p.out| <= cap
    ensures k <= CStrLen(s) && |p.out| + k <= cap
    ensures k == CStrLen(s) <==> |p.out| + CStrLen(s) <= cap
  {
    if CStrLen(s) <= cap - |p.out| then CStrLen(s) else SafeCut(CStr(s), cap - |p.out|)
  }

  /** Append when no overflow was set, in terms of the number of bytes it keeps. */
  lemma AppendKeeps(cap: nat, p: Progress, s: seq<Byte>)
    requires |p.out| <= cap && !p.overflow
    ensures var k := Kept(cap, p, s);
      Append(cap, p, s) == Progress(p.out + CStr(s)[..k], p.ulen + Leads(CStr(s)[..k]), CStrLen(s) > cap - |p.out|)
  {
    var t := CStr(s);
    if |t| <= cap - |p.out| {
      assert t[..Kept(cap, p, s)] == t;
    }
  }

  /** Appending well-framed text to well-framed output keeps the output well-framed. */
  lemma AppendKeepsUtf8(cap: nat, p: Progress, s: seq<Byte>)
    requires |p.out| <= cap && Utf8(p.out) && Utf8(CStr(s))
    ensures Utf8(Append(cap, p, s).out)
  {
    if !p.overflow {
      var t := CStr(s);
      var space := cap - |p.out|;
      if |t| <= space {
        assert Append(cap, p, s).out == p.out + t;
        Utf8Concat(p.out, t);
      } else {
        var k := SafeCut(t, space);
        assert Append(cap, p, s).out == p.out + t[..k];
        SafeCutKeepsUtf8(t, space);
        Utf8Concat(p.out, t[..k]);
      }
    }
  }

  /** The text a sequence of C strings denotes when written one after another. */
  function Flat(toks: seq<seq<Byte>>): seq<Byte> {
    if toks == [] then [] else CStr(toks[0]) + Flat(toks[1..])
  }

  lemma {:induction false} FlatConcat(a: seq<seq<Byte>>, b: seq<seq<Byte>>)
    ensures Flat(a + b) == Flat(a) + Flat(b)
    decreases |a|
  {
    if a == [] {
      assert a + b == b;
    } else {
      assert (a + b)[1..] == a[1..] + b;
      FlatConcat(a[1..], b);
    }
  }

  lemma FlatOne(t: seq<Byte>)
    ensures Flat([t]) == CStr(t)
  {
    assert [t][1..] == [];
  }

  /** A run of add_str calls, one per token, in order. */
  function FeedAll(cap: nat, p: Progress, toks: seq<seq<Byte>>): (r: Progress)
    requires |p.out| <= cap
    ensures |r.out| <= cap && p.out <= r.out
    ensures p.overflow ==> r == p
    decreases |toks|
  {
    if toks == [] then p else FeedAll(cap, Append(cap, p, toks[0]), toks[1..])
  }

  lemma {:induction false} FeedAllConcat(cap: nat, p: Progress, a: seq<seq<Byte>>, b: seq<seq<Byte>>)
    requires |p.out| <= cap
    ensures FeedAll(cap, p, a + b) == FeedAll(cap, FeedAll(cap, p, a), b)
    decreases |a|
  {
    if a == [] {
      assert a + b == b;
    } else {
      assert (a + b)[1..] == a[1..] + b;
      FeedAllConcat(cap, Append(cap, p, a[0]), a[1..], b);
    }
  }

  lemma FeedAllOne(cap: nat, p: Progress, t: seq<Byte>)
    requires |p.out| <= cap
    ensures FeedAll(cap, p, [t]) == Append(cap, p, t)
  {
    assert FeedAll(cap, p, [t]) == FeedAll(cap, Append(cap, p, t), []);
  }

  lemma PrefixOfLonger(a: seq<Byte>, b: seq<Byte>, c: seq<Byte>)
    requires a <= b
    ensures a <= b + c
  {
    assert (b + c)[..|a|] == b[..|a|];
  }

  /** A run of writes emits a prefix of the complete text. */
  lemma {:induction false} FeedAllPrefix(cap: nat, p: Progress, toks: seq<seq<Byte>>)
    requires |p.out| <= cap
    ensures FeedAll(cap, p, toks).out <= p.out + Flat(toks)
    decreases |toks|
  {
    if toks != [] && !p.overflow {
      var p1 := Append(cap, p, toks[0]);
      var r := FeedAll(cap, p1, toks[1..]);
      AppendText(cap, p, toks[0]);
      assert p.out + Flat(toks) == (p.out + CStr(toks[0])) + Flat(toks[1..]);
      if p1.overflow {
        assert r == p1;
        PrefixOfLonger(p1.out, p.out + CStr(toks[0]), Flat(toks[1..]));
      } else {
        assert p1.out == p.out + CStr(toks[0]);
        FeedAllPrefix(cap, p1, toks[1..]);
      }
    }
  }

  /** Without overflow, a run of writes emits the complete text exactly. */
  lemma {:induction false} FeedAllExact(cap: nat, p: Progress, toks: seq<seq<Byte>>)
    requires |p.out| <= cap
    ensures var r := FeedAll(cap, p, toks); !r.overflow ==> r.out == p.out + Flat(toks)
    decreases |toks|
  {
    if toks != [] && !p.overflow {
      var p1 := Append(cap, p, toks[0]);
      AppendText(cap, p, toks[0]);
      if !p1.overflow {
        assert p1.out == p.out + CStr(toks[0]);
        FeedAllExact(cap, p1, toks[1..]);
        assert p.out + Flat(toks) == p1.out + Flat(toks[1..]);
      }
    }
  }

  /** From a state without overflow, a run overflows exactly when the complete text does not fit. */
  lemma {:induction false} FeedAllOverflows(cap: nat, p: Progress, toks: seq<seq<Byte>>)
    requires |p.out| <= cap && !p.overflow
    ensures FeedAll(cap, p, toks).overflow <==> |p.out| + |Flat(toks)| > cap
    decreases |toks|
  {
    if toks != [] {
      var p1 := Append(cap, p, toks[0]);
      AppendText(cap, p, toks[0]);
      assert |Flat(toks)| == |CStr(toks[0])| + |Flat(toks[1..])|;
      if !p1.overflow {
        FeedAllOverflows(cap, p1, toks[1..]);
      }
    }
  }

  /**
   * What a run of writes amounts to: the output is a prefix of the complete text, equal
   * to it exactly when no overflow occurs, and overflow occurs exactly when the complete
   * text would not fit.
   */
  lemma {:induction false} FeedAllMeaning(cap: nat, p: Progress, toks: seq<seq<Byte>>)
    requires |p.out| <= cap && !p.overflow
    ensures var r := FeedAll(cap, p, toks);
      && (r.overflow <==> |p.out| + |Flat(toks)| > cap)
      && (!r.overflow ==> r.out == p.out + Flat(toks))
      && r.out <= p.out + Flat(toks)
  {
    FeedAllPrefix(cap, p, toks);
    FeedAllExact(cap, p, toks);
    FeedAllOverflows(cap, p, toks);
  }

  /** The code-point count grows by exactly the code points a run of writes emits. */
  lemma LeadsOfSuffixes(x: seq<Byte>, y: seq<Byte>, z: seq<Byte>)
    requires x <= y <= z
    ensures Leads(z[|x|..]) == Leads(y[|x|..]) + Leads(z[|y|..])
  {
    assert z[|x|..] == y[|x|..] + z[|y|..];
    LeadsConcat(y[|x|..], z[|y|..]);
  }

  lemma {:induction false} FeedAllCounts(cap: nat, p: Progress, toks: seq<seq<Byte>>)
    requires |p.out| <= cap
    ensures var r := FeedAll(cap, p, toks);
      r.ulen == p.ulen + Leads(r.out[|p.out|..])
    decreases |toks|
  {
    var r := FeedAll(cap, p, toks);
    if toks == [] || p.overflow {
      assert r == p;
      assert r.out[|p.out|..] == [];
    } else {
      var p1 := Append(cap, p, toks[0]);
      AppendCount(cap, p, toks[0]);
      FeedAllCounts(cap, p1, toks[1..]);
      assert r == FeedAll(cap, p1, toks[1..]);
      LeadsOfSuffixes(p.out, p1.out, r.out);
    }
  }

  /** Every token is well-framed UTF-8. */
  predicate AllUtf8(toks: seq<seq<Byte>>) {
    forall i | 0 <= i < |toks| :: Utf8(CStr(toks[i]))
  }

  lemma AllUtf8Concat(a: seq<seq<Byte>>, b: seq<seq<Byte>>)
    requires AllUtf8(a) && AllUtf8(b)
    ensures AllUtf8(a + b)
  {
    forall i | 0 <= i < |a + b|
      ensures Utf8(CStr((a + b)[i]))
    {
      if i >= |a| {
        assert (a + b)[i] == b[i - |a|];
      }
    }
  }

  /** A one-byte ASCII token is well-framed. */
  lemma AsciiTokenUtf8(c: Byte)
    requires 0 < c < 0x80
    ensures AllUtf8([[c]])
  {
    assert CStrLen([c]) == 1;
    assert CStr([c]) == [c];
    AsciiIsUtf8([c]);
  }

  /** Writing well-framed tokens never leaves a partial code point in the output. */
  lemma {:induction false} FeedAllKeepsUtf8(cap: nat, p: Progress, toks: seq<seq<Byte>>)
    requires |p.out| <= cap && Utf8(p.out) && AllUtf8(toks)
    ensures Utf8(FeedAll(cap, p, toks).out)
    decreases |toks|
  {
    if toks != [] {
      AppendKeepsUtf8(cap, p, toks[0]);
      FeedAllKeepsUtf8(cap, Append(cap, p, toks[0]), toks[1..]);
    }
  }

  /** The marker written after a truncated text: "...". */
  const Ellipsis: seq<Byte> := [0x2E, 0x2E, 0x2E]

  /** The text reported for a run: its bytes, then "..." if it overflowed. */
  function Output(p: Progress): seq<Byte> {
    if p.overflow then p.out + Ellipsis else p.out
  }

  /** The code-point count reported for a run: three more on overflow. */
  function OutputUlen(p: Progress): nat {
    if p.overflow then p.ulen + 3 else p.ulen
  }

  /**
   * The report of a run from a fresh state with capacity `cap`: at most `cap + 3` bytes;
   * the complete text when it fits, otherwise a prefix of it followed by "...".
   */
  lemma {:induction false} OutputMeaning(cap: nat, toks: seq<seq<Byte>>)
    ensures var p := FeedAll(cap, Fresh, toks); var o := Output(p);
      && |o| <= cap + 3
      && (p.overflow <==> |Flat(toks)| > cap)
      && (!p.overflow ==> o == Flat(toks))
      && (p.overflow ==> |o| >= 3 && o[..|o| - 3] <= Flat(toks) && o[|o| - 3..] == Ellipsis)
  {
    var p := FeedAll(cap, Fresh, toks);
    FeedAllMeaning(cap, Fresh, toks);
    assert Fresh.out + Flat(toks) == Flat(toks);
    if p.overflow {
      var o := p.out + Ellipsis;
      assert o[..|o| - 3] == p.out && o[|o| - 3..] == Ellipsis;
    }
  }

  /** The code-point count reported for a run from a fresh state is that of the reported text. */
  lemma {:induction false} OutputCount(cap: nat, toks: seq<seq<Byte>>)
    ensures var p := FeedAll(cap, Fresh, toks); OutputUlen(p) == Leads(Output(p))
  {
    var p := FeedAll(cap, Fresh, toks);
    FeedAllCounts(cap, Fresh, toks);
    assert p.out[0..] == p.out;
    if p.overflow {
      LeadsConcat(p.out, Ellipsis);
    }
  }
}
