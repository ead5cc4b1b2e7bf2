/** Splitting a byte stream into newline-terminated lines and an unfinished tail. */
module Lines {
  import opened Bytes
  import opened Sequences

  type Line = seq<Byte>

  datatype Parsed = Parsed(lines: seq<Line>, tail: seq<Byte>)

  // What accepting one more byte does: it joins the tail, and a newline completes the line.
  function Absorb(p: Parsed, b: Byte): Parsed {
    if b == NEWLINE then Parsed(p.lines + [p.tail + [b]], []) else Parsed(p.lines, p.tail + [b])
  }

  function Parse(s: seq<Byte>): Parsed {
    if s == [] then Parsed([], []) else Absorb(Parse(s[..|s| - 1]), s[|s| - 1])
  }

  predicate IsLine(l: Line) {
    l != [] && l[|l| - 1] == NEWLINE && NEWLINE !in l[..|l| - 1]
  }

  // The specification of splitting, independent of how Parse goes about it.
  ghost predicate IsSplitting(s: seq<Byte>, p: Parsed) {
    && (forall k :: 0 <= k < |p.lines| ==> IsLine(p.lines[k]))
    && NEWLINE !in p.tail
    && Flatten(p.lines) + p.tail == s
  }

  lemma {:induction false} ParseSplits(s: seq<Byte>)
    ensures IsSplitting(s, Parse(s))
  {
    if s != [] {
      var q := Parse(s[..|s| - 1]);
      var b := s[|s| - 1];
      ParseSplits(s[..|s| - 1]);
      assert s == s[..|s| - 1] + [b];
      if b == NEWLINE {
        var l := q.tail + [b];
        assert l[..|l| - 1] == q.tail;
        FlattenSnoc(q.lines, l);
        assert Flatten(q.lines) + l == s;
      }
    }
  }

  // The last byte of the stream tells which case of Absorb completed the splitting.
  lemma {:induction false} SplittingUnique(s: seq<Byte>, p: Parsed)
    requires IsSplitting(s, p)
    ensures p == Parse(s)
    decreases |s|
  {
    var n := |p.lines|;
    if p.tail != [] {
      var q := Parsed(p.lines, p.tail[..|p.tail| - 1]);
      assert s[..|s| - 1] == Flatten(q.lines) + q.tail;
      SplittingUnique(s[..|s| - 1], q);
      assert q.tail + [s[|s| - 1]] == p.tail;
    } else if n > 0 {
      var l := p.lines[n - 1];
      var q := Parsed(p.lines[..n - 1], l[..|l| - 1]);
      assert p.lines == q.lines + [l];
      FlattenSnoc(q.lines, l);
      assert l == q.tail + [NEWLINE];
      assert s == Flatten(q.lines) + l + p.tail == Flatten(q.lines) + q.tail + [NEWLINE];
      assert s[..|s| - 1] == Flatten(q.lines) + q.tail;
      SplittingUnique(s[..|s| - 1], q);
    } else {
      assert s == [];
    }
  }

  /** The lines and tail of a stream are the only way to cut it after each newline. */
  lemma ParseCharacterised(s: seq<Byte>, p: Parsed)
    ensures p == Parse(s) <==> IsSplitting(s, p)
  {
    ParseSplits(s);
    if IsSplitting(s, p) {
      SplittingUnique(s, p);
    }
  }

  lemma SplittingAppend(s: seq<Byte>, p: Parsed, more: seq<Byte>, q: Parsed)
    requires IsSplitting(s, p) && IsSplitting(p.tail + more, q)
    ensures IsSplitting(s + more, Parsed(p.lines + q.lines, q.tail))
  {
    hide Flatten, IsLine;
    FlattenAppend(p.lines, q.lines);
    var start := Flatten(p.lines);
    assert start + Flatten(q.lines) + q.tail == start + (Flatten(q.lines) + q.tail);
    assert start + (p.tail + more) == start + p.tail + more;
  }

  // Later bytes leave the complete lines alone: they continue the tail.
  lemma ParseAppend(s: seq<Byte>, more: seq<Byte>)
    ensures var p := Parse(s);
            var q := Parse(p.tail + more);
            Parse(s + more) == Parsed(p.lines + q.lines, q.tail)
  {
    hide Parse, IsSplitting;
    var p := Parse(s);
    var q := Parse(p.tail + more);
    ParseSplits(s);
    ParseSplits(p.tail + more);
    SplittingAppend(s, p, more, q);
    SplittingUnique(s + more, Parsed(p.lines + q.lines, q.tail));
  }

  const MAX_OPS: nat := 10

  // The entries that a history of n of them leaves in a ring of MAX_OPS slots.
  function Window<T>(history: seq<T>): (w: seq<T>)
    ensures |w| == Min(|history|, MAX_OPS)
  {
    history[Max(0, |history| - MAX_OPS)..]
  }

  lemma WindowLines(s: seq<Byte>, j: nat)
    requires j < |Window(Parse(s).lines)|
    ensures IsLine(Window(Parse(s).lines)[j])
  {
    ParseSplits(s);
  }

  // The bytes a reader of the device can see.
  function Visible(stream: seq<Byte>): seq<Byte> {
    Flatten(Window(Parse(stream).lines))
  }

  lemma ParseStep(s: seq<Byte>, b: Byte)
    ensures Parse(s + [b]) == Absorb(Parse(s), b)
  {
    assert (s + [b])[..|s + [b]| - 1] == s;
  }

  lemma WindowStep<T>(history: seq<T>, x: T)
    ensures Window(history + [x]) ==
            if |history| < MAX_OPS then Window(history) + [x] else Window(history)[1..] + [x]
  {
  }
}
