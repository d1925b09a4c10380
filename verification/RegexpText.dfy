/**
 The subject string of a regular expression and the character cursor of the
 virtual machine: the GET_CHAR / PREV_CHAR family of macros, with surrogate
 pairs joined only when the buffer is matched as UTF-16.
 */
module RegexpText {
  import opened Basics

  predicate IsHiSurrogate(c: int) { 0xD800 <= c < 0xDC00 }
  predicate IsLoSurrogate(c: int) { 0xDC00 <= c < 0xE000 }

  function FromSurrogate(hi: int, lo: int): int {
    0x10000 + 0x400 * (hi - 0xD800) + (lo - 0xDC00)
  }

  /** A character buffer; `utf16` is buffer type 2, the other types read one unit at a time. */
  datatype Text = Text(units: seq<nat>, utf16: bool)

  /** Position `p` does not split a surrogate pair of a buffer read as UTF-16. */
  predicate Boundary(t: Text, p: int) {
    && 0 <= p <= |t.units|
    && !(t.utf16 && 0 < p < |t.units| && IsHiSurrogate(t.units[p - 1]) && IsLoSurrogate(t.units[p]))
  }

  /** The position after the character at `p`, reading no unit at or after `end`. */
  function Next(t: Text, p: int, end: int): (q: int)
    requires 0 <= p < end <= |t.units|
    ensures p < q <= end
  {
    if t.utf16 && IsHiSurrogate(t.units[p]) && p + 1 < end && IsLoSurrogate(t.units[p + 1]) then p + 2 else p + 1
  }

  /** The character read at `p` by GET_CHAR and PEEK_CHAR. */
  function CharAt(t: Text, p: int, end: int): (c: nat)
    requires 0 <= p < end <= |t.units|
  {
    if Next(t, p, end) == p + 2 then FromSurrogate(t.units[p], t.units[p + 1]) else t.units[p]
  }

  /** The position before the character that ends at `p`, reading no unit before `start`. */
  function Prev(t: Text, p: int, start: int): (q: int)
    requires 0 <= start < p <= |t.units|
    ensures start <= q < p
  {
    if t.utf16 && IsLoSurrogate(t.units[p - 1]) && p - 1 > start && IsHiSurrogate(t.units[p - 2]) then p - 2 else p - 1
  }

  /** The character read before `p` by GET_PREV_CHAR and PEEK_PREV_CHAR. */
  function CharBefore(t: Text, p: int, start: int): (c: nat)
    requires 0 <= start < p <= |t.units|
  {
    if Prev(t, p, start) == p - 2 then FromSurrogate(t.units[p - 2], t.units[p - 1]) else t.units[p - 1]
  }

  /** From a boundary, moving forward lands on a boundary, and moving back undoes it. */
  lemma NextThenPrev(t: Text, p: int)
    requires Boundary(t, p) && p < |t.units|
    ensures Boundary(t, Next(t, p, |t.units|))
    ensures Prev(t, Next(t, p, |t.units|), 0) == p
    ensures CharBefore(t, Next(t, p, |t.units|), 0) == CharAt(t, p, |t.units|)
  {
  }

  /** From a boundary, moving back lands on a boundary, and moving forward undoes it. */
  lemma PrevThenNext(t: Text, p: int)
    requires Boundary(t, p) && 0 < p
    ensures Boundary(t, Prev(t, p, 0))
    ensures Next(t, Prev(t, p, 0), |t.units|) == p
    ensures CharAt(t, Prev(t, p, 0), |t.units|) == CharBefore(t, p, 0)
  {
  }

  /** `n` characters forward; None when the buffer ends before. */
  function Forward(t: Text, p: int, n: nat): (r: Option<int>)
    requires 0 <= p <= |t.units|
    ensures r.Some? ==> p <= r.value <= |t.units|
    decreases n
  {
    if n == 0 then Some(p)
    else if p >= |t.units| then None
    else Forward(t, Next(t, p, |t.units|), n - 1)
  }

  /** The backward stepping loop of the greedy choice point: `n` characters back. */
  function Backward(t: Text, p: int, n: nat): (r: Option<int>)
    requires 0 <= p <= |t.units|
    ensures r.Some? ==> 0 <= r.value <= p
    decreases n
  {
    if n == 0 then Some(p)
    else if p == 0 then None
    else Backward(t, Prev(t, p, 0), n - 1)
  }

  lemma {:induction false} BackwardSnoc(t: Text, p: int, n: nat)
    requires Boundary(t, p)
    ensures Backward(t, p, n).Some? ==> Boundary(t, Backward(t, p, n).value)
    ensures Backward(t, p, n + 1) ==
            (match Backward(t, p, n)
             case None => None
             case Some(q) => if q == 0 then None else Some(Prev(t, q, 0)))
    decreases n
  {
    if n > 0 && p > 0 {
      PrevThenNext(t, p);
      BackwardSnoc(t, Prev(t, p, 0), n - 1);
    } else if p > 0 {
      PrevThenNext(t, p);
      assert Backward(t, p, 1) == Backward(t, Prev(t, p, 0), 0);
    }
  }

  /** Going back over the characters just read returns to the start, on any boundary. */
  lemma {:induction false} ForwardThenBackward(t: Text, p: int, n: nat)
    requires Boundary(t, p)
    ensures Forward(t, p, n).Some? ==>
              Boundary(t, Forward(t, p, n).value) && Backward(t, Forward(t, p, n).value, n) == Some(p)
    decreases n
  {
    if n > 0 && p < |t.units| {
      var q := Next(t, p, |t.units|);
      NextThenPrev(t, p);
      ForwardThenBackward(t, q, n - 1);
      if Forward(t, p, n).Some? {
        BackwardSnoc(t, Forward(t, p, n).value, n - 1);
      }
    }
  }

  // ----- the characters of a text -----

  /** The characters from `p` to `q`. */
  function Chars(t: Text, p: int, q: int): (cs: seq<nat>)
    requires 0 <= p && q <= |t.units|
    decreases q - p
  {
    if p >= q then [] else [CharAt(t, p, q)] + Chars(t, Next(t, p, q), q)
  }

  /** Read backward they are the same. */
  lemma {:induction false} CharsSnoc(t: Text, p: int, q: int)
    requires 0 <= p < q <= |t.units|
    ensures Chars(t, p, q) == Chars(t, p, Prev(t, q, p)) + [CharBefore(t, q, p)]
    decreases q - p
  {
    var n := Next(t, p, q);
    if n < q {
      CharsSnoc(t, n, q);
      assert Prev(t, q, n) == Prev(t, q, p) && CharBefore(t, q, n) == CharBefore(t, q, p);
      assert Next(t, p, Prev(t, q, p)) == n && CharAt(t, p, Prev(t, q, p)) == CharAt(t, p, q);
    }
  }

  /** The UTF-16 encoding of a character. */
  function Units(c: int): seq<int> {
    if c < 0x10000 then [c] else [0xD800 + (c - 0x10000) / 0x400, 0xDC00 + (c - 0x10000) % 0x400]
  }

  function Encoded(cs: seq<nat>): seq<int> {
    if cs == [] then [] else Units(cs[0]) + Encoded(cs[1..])
  }

  /** Encoding the characters of a UTF-16 text gives its units back; other texts are read unit by unit. */
  lemma {:induction false} CharsEncode(t: Text, p: int, q: int)
    requires 0 <= p <= q <= |t.units| && forall i :: 0 <= i < |t.units| ==> t.units[i] < 0x10000
    ensures if t.utf16 then Encoded(Chars(t, p, q)) == t.units[p..q] else Chars(t, p, q) == t.units[p..q]
    decreases q - p
  {
    if p < q {
      var n, c := Next(t, p, q), CharAt(t, p, q);
      CharsEncode(t, n, q);
      assert t.units[p..q] == t.units[p..n] + t.units[n..q];
      if n == p + 2 {
        SurrogatePair(t.units[p], t.units[p + 1]);
        assert t.units[p..n] == [t.units[p], t.units[p + 1]];
      } else {
        assert t.units[p..n] == [t.units[p]];
      }
      assert Chars(t, p, q)[1..] == Chars(t, n, q);
    }
  }

  lemma SurrogatePair(hi: int, lo: int)
    requires IsHiSurrogate(hi) && IsLoSurrogate(lo)
    ensures var c := FromSurrogate(hi, lo); 0x10000 <= c < 0x110000 && Units(c) == [hi, lo]
  {
    assert (0x400 * (hi - 0xD800) + (lo - 0xDC00)) / 0x400 == hi - 0xD800;
  }

  /** No character read from a UTF-16 text is half of a pair whose other half is the next one. */
  lemma {:induction false} CharsJoined(t: Text, p: int, q: int, i: nat)
    requires 0 <= p <= q <= |t.units| && t.utf16 && i + 1 < |Chars(t, p, q)|
    ensures var cs := Chars(t, p, q); !(0xD800 <= cs[i] < 0xDC00 && 0xDC00 <= cs[i + 1] < 0xE000)
    decreases q - p
  {
    var n := Next(t, p, q);
    if i > 0 {
      CharsJoined(t, n, q, i - 1);
    } else {
      assert Chars(t, p, q)[1] == CharAt(t, n, q);
    }
  }

  predicate IsLineTerminator(c: int) {
    c == '\n' as int || c == '\r' as int || c == 0x2028 || c == 0x2029
  }

  predicate IsWordChar(c: int) {
    || '0' as int <= c <= '9' as int
    || 'a' as int <= c <= 'z' as int
    || 'A' as int <= c <= 'Z' as int
    || c == '_' as int
  }
}
