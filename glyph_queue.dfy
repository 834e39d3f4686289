/**
 * The bounded glyph history of one rain column: a double-ended queue created
 * with a maximum length, to which glyphs are appended on the right and from
 * which the oldest (leftmost) glyph is evicted once the maximum is reached.
 */
module GlyphQueues {

  /** `items` lists the glyphs oldest first; `maxlen` is fixed when the queue is made. */
  datatype GlyphQueue = GlyphQueue(items: seq<char>, maxlen: nat)

  /** The invariant every such queue keeps: it never holds more than its maximum. */
  predicate Bounded(q: GlyphQueue) {
    |q.items| <= q.maxlen
  }

  /** The last `n` elements of `s` (all of `s` when it is no longer than `n`). */
  function Newest(s: seq<char>, n: nat): (r: seq<char>)
    ensures |r| == if |s| <= n then |s| else n
    ensures forall k :: 0 <= k < |r| ==> r[k] == s[|s| - |r| + k]
  {
    if |s| <= n then s else s[|s| - n..]
  }

  /** A fresh, empty queue with the given maximum length. */
  function Empty(maxlen: nat): (q: GlyphQueue)
    ensures Bounded(q) && q.items == [] && q.maxlen == maxlen
  {
    GlyphQueue([], maxlen)
  }

  /** Appends `c` on the right; a full queue first loses its oldest glyph. */
  function Append(q: GlyphQueue, c: char): (r: GlyphQueue)
    requires Bounded(q)
    ensures Bounded(r) && r.maxlen == q.maxlen
    ensures |q.items| < q.maxlen ==> r.items == q.items + [c]
    ensures 0 < q.maxlen == |q.items| ==> r.items == q.items[1..] + [c] && |r.items| == q.maxlen
    ensures q.maxlen == 0 ==> r.items == []
  {
    q.(items := Newest(q.items + [c], q.maxlen))
  }

  /** Removes every glyph and keeps the maximum length. */
  function Clear(q: GlyphQueue): (r: GlyphQueue)
    ensures Bounded(r) && r.items == [] && r.maxlen == q.maxlen
  {
    q.(items := [])
  }

  /** The queue after appending each glyph of `cs` in turn. */
  function AppendAll(q: GlyphQueue, cs: seq<char>): (r: GlyphQueue)
    requires Bounded(q)
    ensures Bounded(r) && r.maxlen == q.maxlen
  {
    if cs == [] then q else Append(AppendAll(q, cs[..|cs| - 1]), cs[|cs| - 1])
  }

  /** Trimming to the newest `n` before or after appending one more element gives the same. */
  lemma NewestSnoc(s: seq<char>, c: char, n: nat)
    ensures Newest(Newest(s, n) + [c], n) == Newest(s + [c], n)
  {
    var a, b := Newest(Newest(s, n) + [c], n), Newest(s + [c], n);
    assert |a| == |b|;
    forall k | 0 <= k < |a| ensures a[k] == b[k] {
    }
  }

  /**
   * However many glyphs are appended, the queue holds exactly the newest
   * `maxlen` of everything it was given, oldest first; in particular it never
   * exceeds its maximum and is full once enough glyphs have arrived.
   */
  lemma {:induction false} AppendAllKeepsNewest(q: GlyphQueue, cs: seq<char>)
    requires Bounded(q)
    ensures AppendAll(q, cs).items == Newest(q.items + cs, q.maxlen)
    ensures |AppendAll(q, cs).items| == if |q.items| + |cs| <= q.maxlen then |q.items| + |cs| else q.maxlen
  {
    if cs == [] {
      assert q.items + cs == q.items;
    } else {
      var init, c := cs[..|cs| - 1], cs[|cs| - 1];
      var prev := AppendAll(q, init);
      AppendAllKeepsNewest(q, init);
      assert prev.items == Newest(q.items + init, q.maxlen);
      assert AppendAll(q, cs).items == Newest(prev.items + [c], q.maxlen);
      NewestSnoc(q.items + init, c, q.maxlen);
      assert q.items + init + [c] == q.items + cs by {
        assert init + [c] == cs;
      }
    }
  }
}
