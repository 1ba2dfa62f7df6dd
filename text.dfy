/** Bytes, C strings and the UTF-8 framing facts the inspector relies on. */
module Text {

  /** One byte of text (the runtime's `char`, read as unsigned). */
  type Byte = b: int | 0 <= b < 0x100

  /** A continuation byte `10xxxxxx`: it does not start a code point. */
  predicate IsCont(b: Byte) {
    0x80 <= b < 0xC0
  }

  /** strlen: the number of bytes before the first NUL (all of them if there is none). */
  function CStrLen(s: seq<Byte>): (n: nat)
    ensures n <= |s|
    ensures forall i | 0 <= i < n :: s[i] != 0
    ensures n < |s| ==> s[n] == 0
  {
    if s == [] || s[0] == 0 then 0 else 1 + CStrLen(s[1..])
  }

  /** The text a C string denotes: its bytes up to, not including, the first NUL. */
  function CStr(s: seq<Byte>): seq<Byte> {
    s[..CStrLen(s)]
  }

  lemma CStrOfNulFree(s: seq<Byte>)
    requires forall i | 0 <= i < |s| :: s[i] != 0
    ensures CStr(s) == s
  {
  }

  /** The number of code points that start in `t`, i.e. its non-continuation bytes. */
  function Leads(t: seq<Byte>): (n: nat)
    ensures n <= |t|
  {
    if t == [] then 0 else Leads(t[..|t| - 1]) + (if IsCont(t[|t| - 1]) then 0 else 1)
  }

  /** Extending a prefix by one byte counts one more code point exactly when that byte starts one. */
  lemma LeadsExtend(t: seq<Byte>, i: nat)
    requires i < |t|
    ensures Leads(t[..i + 1]) == Leads(t[..i]) + (if IsCont(t[i]) then 0 else 1)
  {
    assert t[..i + 1][..i] == t[..i];
  }

  lemma {:induction false} LeadsConcat(a: seq<Byte>, b: seq<Byte>)
    ensures Leads(a + b) == Leads(a) + Leads(b)
    decreases |b|
  {
    if b == [] {
      assert a + b == a;
    } else {
      assert (a + b)[..|a + b| - 1] == a + b[..|b| - 1];
      LeadsConcat(a, b[..|b| - 1]);
    }
  }

  /** Length of the code point a lead byte announces; 0 for a byte that cannot start one. */
  function CodePointLength(lead: Byte): nat {
    if lead < 0x80 then 1
    else if 0xC0 <= lead < 0xE0 then 2
    else if 0xE0 <= lead < 0xF0 then 3
    else if 0xF0 <= lead < 0xF8 then 4
    else 0
  }

  /**
   * Well-framed UTF-8: a sequence of complete code points, each a lead byte followed by
   * exactly the number of continuation bytes it announces. (Overlong forms and
   * surrogates are not told apart: only the framing matters to truncation.)
   */
  predicate Utf8(t: seq<Byte>)
    decreases |t|
  {
    t == [] ||
    var n := CodePointLength(t[0]);
    1 <= n <= |t| && (forall i | 1 <= i < n :: IsCont(t[i])) && Utf8(t[n..])
  }

  /** Text made of bytes below 0x80 only is well-framed. */
  lemma {:induction false} AsciiIsUtf8(t: seq<Byte>)
    requires forall i | 0 <= i < |t| :: t[i] < 0x80
    ensures Utf8(t)
    decreases |t|
  {
    if t != [] {
      AsciiIsUtf8(t[1..]);
    }
  }

  lemma {:induction false} Utf8Concat(a: seq<Byte>, b: seq<Byte>)
    requires Utf8(a) && Utf8(b)
    ensures Utf8(a + b)
    decreases |a|
  {
    if a != [] {
      var n := CodePointLength(a[0]);
      Utf8Concat(a[n..], b);
      assert (a + b)[n..] == a[n..] + b;
    } else {
      assert a + b == b;
    }
  }

  /** Well-framed text never starts with a continuation byte. */
  lemma Utf8StartsWithLead(t: seq<Byte>)
    requires Utf8(t) && t != []
    ensures !IsCont(t[0])
  {
  }

  /** Cutting well-framed text in front of a non-continuation byte leaves well-framed text. */
  lemma {:induction false} Utf8PrefixAtLead(t: seq<Byte>, k: nat)
    requires Utf8(t) && k <= |t|
    requires k == |t| || !IsCont(t[k])
    ensures Utf8(t[..k])
    decreases |t|
  {
    if k == |t| {
      assert t[..k] == t;
    } else if k > 0 {
      var n := CodePointLength(t[0]);
      Utf8PrefixAtLead(t[n..], k - n);
      assert t[..k][n..] == t[n..][..k - n];
    }
  }

  /** In well-framed text a byte below 0x80 is never followed by a continuation byte. */
  lemma {:induction false} Utf8AsciiThenLead(t: seq<Byte>, k: nat)
    requires Utf8(t) && 0 < k < |t| && t[k - 1] < 0x80
    ensures !IsCont(t[k])
    decreases |t|
  {
    var n := CodePointLength(t[0]);
    if k - 1 == 0 {
      Utf8StartsWithLead(t[n..]);
    } else if k - 1 >= n {
      Utf8AsciiThenLead(t[n..], k - n);
    }
  }
}
