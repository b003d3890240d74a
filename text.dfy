/** String operations the README synthesiser relies on: the `---` front-matter
    delimiter (Python's `'---' in s` and `s.split('---')`), newline-terminated
    lines, the `</br>` escaping of cell values and `" | ".join(cells)`. */
module Text {

  /** The front-matter delimiter of hf_utils.py. */
  const Delim: string := "---"

  /** Python's `'---' in s`. */
  predicate Contains(s: string)
    decreases |s|
  {
    |s| >= 3 && (s[..3] == Delim || Contains(s[1..]))
  }

  /** How many non-overlapping delimiters a left-to-right scan finds. */
  function Occurrences(s: string): nat
    decreases |s|
  {
    if |s| < 3 then 0
    else if s[..3] == Delim then 1 + Occurrences(s[3..])
    else Occurrences(s[1..])
  }

  /** Appending is associative. */
  lemma AppendAssoc<T>(a: seq<T>, b: seq<T>, c: seq<T>)
    ensures (a + b) + c == a + (b + c)
  {
  }

  /** Python's `s.split('---')`: the pieces between non-overlapping delimiters,
      found left to right. There is always at least one piece, and the first
      one is a prefix of `s`. */
  function Segments(s: string): (r: seq<string>)
    ensures |r| >= 1 && r[0] <= s
    decreases |s|
  {
    if |s| < 3 then [s]
    else if s[..3] == Delim then [""] + Segments(s[3..])
    else
      var rest := Segments(s[1..]);
      [[s[0]] + rest[0]] + rest[1..]
  }

  /** Python's `'---'.join(segs)`. */
  function JoinDelim(segs: seq<string>): string
    requires |segs| >= 1
  {
    if |segs| == 1 then segs[0] else segs[0] + Delim + JoinDelim(segs[1..])
  }

  /** `split` yields one piece more than there are delimiters. */
  lemma {:induction false} SegmentsCount(s: string)
    ensures |Segments(s)| == Occurrences(s) + 1
    decreases |s|
  {
    if |s| < 3 {
    } else if s[..3] == Delim {
      SegmentsCount(s[3..]);
    } else {
      SegmentsCount(s[1..]);
    }
  }

  /** The `in` test finds a delimiter exactly when the scan counts one. */
  lemma {:induction false} ContainsOccurrences(s: string)
    ensures Contains(s) <==> Occurrences(s) > 0
    decreases |s|
  {
    if |s| < 3 {
    } else if s[..3] == Delim {
    } else {
      ContainsOccurrences(s[1..]);
    }
  }

  /** Joining the pieces with the delimiter gives back the original text. */
  lemma {:induction false} JoinSegments(s: string)
    ensures JoinDelim(Segments(s)) == s
    decreases |s|
  {
    if |s| < 3 {
    } else if s[..3] == Delim {
      JoinSegments(s[3..]);
      assert s == Delim + s[3..];
    } else {
      var rest := Segments(s[1..]);
      JoinSegments(s[1..]);
      if |rest| == 1 {
        assert Segments(s) == [[s[0]] + rest[0]];
      } else {
        assert Segments(s)[1..] == rest[1..];
        assert JoinDelim(Segments(s)) == [s[0]] + rest[0] + Delim + JoinDelim(rest[1..]);
      }
    }
  }

  /** No piece contains the delimiter. */
  lemma {:induction false} SegmentsFree(s: string)
    ensures forall k :: 0 <= k < |Segments(s)| ==> !Contains(Segments(s)[k])
    decreases |s|
  {
    if |s| < 3 {
    } else if s[..3] == Delim {
      SegmentsFree(s[3..]);
      assert forall k :: 1 <= k < |Segments(s)| ==> Segments(s)[k] == Segments(s[3..])[k - 1];
    } else {
      var rest := Segments(s[1..]);
      SegmentsFree(s[1..]);
      var first := [s[0]] + rest[0];
      assert first <= s;
      if |first| >= 3 {
        assert first[..3] == s[..3];
        assert first[1..] == rest[0];
      }
      assert !Contains(first);
      assert forall k :: 1 <= k < |Segments(s)| ==> Segments(s)[k] == rest[k];
    }
  }

  /** Splitting text that starts with a delimiter yields an empty first piece. */
  lemma SegmentsAfterDelim(q: string)
    ensures Segments(Delim + q) == [""] + Segments(q)
  {
    assert (Delim + q)[..3] == Delim;
    assert (Delim + q)[3..] == q;
  }

  /** Where no delimiter starts, the first character joins the first piece. */
  lemma SegmentsStep(s: string)
    requires s != []
    requires |s| < 3 || s[..3] != Delim
    ensures Segments(s) == [[s[0]] + Segments(s[1..])[0]] + Segments(s[1..])[1..]
  {
    if |s| < 3 {
      assert Segments(s[1..]) == [s[1..]];
      assert [s[0]] + s[1..] == s;
    }
  }

  /** Dropping the first character keeps text free of the delimiter. */
  lemma ContainsTail(p: string)
    requires p != [] && !Contains(p)
    ensures !Contains(p[1..])
  {
    if |p| >= 3 {
      assert Contains(p) == (p[..3] == Delim || Contains(p[1..]));
    }
  }

  /** A nonempty piece free of the delimiter that does not end in `-` keeps
      a following delimiter from starting at its front. */
  lemma NoDelimAtFront(p: string, q: string)
    requires p != [] && !Contains(p) && p[|p| - 1] != '-'
    ensures (p + Delim + q)[..3] != Delim
  {
    var s := p + Delim + q;
    if |p| >= 3 {
      assert s[..3] == p[..3];
    } else if |p| == 2 {
      assert s[1] == p[1];
    } else {
      assert s[0] == p[0];
    }
  }

  /** A piece free of the delimiter that does not end in `-`, followed by a
      delimiter, is split off whole. */
  lemma {:induction false} SegmentsAt(p: string, q: string)
    requires !Contains(p)
    requires p == [] || p[|p| - 1] != '-'
    ensures Segments(p + Delim + q) == [p] + Segments(q)
    decreases |p|
  {
    var s := p + Delim + q;
    if p == [] {
      assert s == Delim + q;
      SegmentsAfterDelim(q);
    } else {
      var c, t := p[0], p[1..];
      assert p == [c] + t;
      var u := t + Delim + q;
      AppendAssoc([c], t, Delim);
      AppendAssoc([c], t + Delim, q);
      NoDelimAtFront(p, q);
      ContainsTail(p);
      SegmentsFront(c, u);
      SegmentsAt(t, q);
    }
  }

  /** Where no delimiter starts at the front, the first character joins the
      first piece. */
  lemma SegmentsFront(c: char, u: string)
    requires |[c] + u| < 3 || ([c] + u)[..3] != Delim
    ensures Segments([c] + u) == [[c] + Segments(u)[0]] + Segments(u)[1..]
  {
    assert ([c] + u)[1..] == u;
    SegmentsStep([c] + u);
  }

  /** A character other than `-` in front joins the first piece. */
  lemma SegmentsCons(c: char, r: string)
    requires c != '-'
    ensures Segments([c] + r) == [[c] + Segments(r)[0]] + Segments(r)[1..]
  {
    var s := [c] + r;
    assert |s| < 3 || s[..3][0] == c;
    SegmentsFront(c, r);
  }

  /** Text free of `-` starts with a character other than `-` and its tail
      is free of `-` too. */
  lemma NoDashTail(p: string)
    requires p != [] && '-' !in p
    ensures p[0] != '-' && '-' !in p[1..] && p == [p[0]] + p[1..]
  {
    assert p[0] in p;
    assert forall c :: c in p[1..] ==> c in p;
  }

  /** Text free of `-` cannot hold a delimiter, so it stays in the first piece. */
  lemma {:induction false} SegmentsNoDash(p: string, r: string)
    requires '-' !in p
    ensures Segments(p + r) == [p + Segments(r)[0]] + Segments(r)[1..]
    decreases |p|
  {
    if p == [] {
      assert p + r == r && p + Segments(r)[0] == Segments(r)[0];
    } else {
      NoDashTail(p);
      var t := p[1..];
      SegmentsNoDash(t, r);
      SegmentsCons(p[0], t + r);
      assert p + r == [p[0]] + (t + r);
      assert p + Segments(r)[0] == [p[0]] + (t + Segments(r)[0]);
    }
  }

  /** A character other than `-` added at either end creates no delimiter. */
  lemma ContainsCons(c: char, s: string)
    requires c != '-'
    ensures Contains([c] + s) == Contains(s)
  {
    var t := [c] + s;
    assert t[1..] == s;
    if |t| >= 3 {
      assert t[..3][0] == c;
      assert t[..3] != Delim;
    }
  }

  lemma {:induction false} ContainsSnoc(s: string, c: char)
    requires c != '-'
    ensures Contains(s + [c]) == Contains(s)
    decreases |s|
  {
    if |s| >= 3 {
      assert (s + [c])[..3] == s[..3];
      assert (s + [c])[1..] == s[1..] + [c];
      ContainsSnoc(s[1..], c);
    } else if |s| == 2 {
      assert (s + [c])[2] == c;
      assert (s + [c])[1..] == s[1..] + [c];
    } else {
      assert |s + [c]| < 3;
    }
  }

  /** The newline-terminated lines of a text, each with its newline (like
      Python's `s.splitlines(keepends=True)` for `\n` line ends); a last line
      without a newline is kept as it is. */
  function Lines(s: string): (r: seq<string>)
    ensures s == [] <==> r == []
    decreases |s|
  {
    if s == [] then []
    else if s[0] == '\n' then ["\n"] + Lines(s[1..])
    else
      var rest := Lines(s[1..]);
      if rest == [] then [s] else [[s[0]] + rest[0]] + rest[1..]
  }

  /** A text with one newline, at its end, is one line. */
  lemma {:induction false} LinesOfLine(p: string)
    requires '\n' !in p
    ensures Lines(p + "\n") == [p + "\n"]
    decreases |p|
  {
    if p != [] {
      assert (p + "\n")[1..] == p[1..] + "\n";
      assert p[0] in p;
      LinesOfLine(p[1..]);
      assert [p[0]] + (p[1..] + "\n") == p + "\n";
    } else {
      assert p + "\n" == "\n";
    }
  }

  /** Lines of text that ends with a newline are not joined to what follows. */
  lemma {:induction false} LinesAppend(a: string, b: string)
    requires |a| > 0 && a[|a| - 1] == '\n'
    ensures Lines(a + b) == Lines(a) + Lines(b)
    decreases |a|
  {
    assert (a + b)[0] == a[0];
    if |a| == 1 {
      assert (a + b)[1..] == b;
    } else {
      assert (a + b)[1..] == a[1..] + b;
      LinesAppend(a[1..], b);
    }
  }

  /** The pieces of `parts` written one after the other. */
  function Concat(parts: seq<string>): string
    decreases |parts|
  {
    if parts == [] then "" else Concat(parts[..|parts| - 1]) + parts[|parts| - 1]
  }

  /** Text that is a single line: one newline, at its end. */
  predicate IsLine(s: string)
  {
    |s| > 0 && s[|s| - 1] == '\n' && '\n' !in s[..|s| - 1]
  }

  lemma LineLines(s: string)
    requires IsLine(s)
    ensures Lines(s) == [s]
  {
    LinesOfLine(s[..|s| - 1]);
    assert s == s[..|s| - 1] + "\n";
  }

  /** Writing single lines one after the other gives exactly those lines. */
  lemma {:induction false} LinesConcat(parts: seq<string>)
    requires forall k :: 0 <= k < |parts| ==> IsLine(parts[k])
    ensures Lines(Concat(parts)) == parts
    ensures parts != [] ==> Concat(parts)[|Concat(parts)| - 1] == '\n'
    decreases |parts|
  {
    if parts != [] {
      var prefix := parts[..|parts| - 1];
      var last := parts[|parts| - 1];
      LinesConcat(prefix);
      LineLines(last);
      var text := Concat(prefix);
      if prefix == [] {
        assert Concat(parts) == last;
      } else {
        LinesAppend(text, last);
      }
      assert parts == prefix + [last];
    }
  }

  /** Python's `s.replace('\n', '</br>')`. */
  function Escape(s: string): (r: string)
    ensures '\n' !in r
    decreases |s|
  {
    if s == [] then []
    else (if s[0] == '\n' then "</br>" else [s[0]]) + Escape(s[1..])
  }

  /** Escaping leaves text without newlines unchanged. */
  lemma {:induction false} EscapeNoNewline(s: string)
    requires '\n' !in s
    ensures Escape(s) == s
    decreases |s|
  {
    if s != [] {
      assert s[0] in s;
      assert forall c :: c in s[1..] ==> c in s;
      EscapeNoNewline(s[1..]);
    }
  }

  /** Escaping lengthens the text by four characters per newline. */
  function NewlineCount(s: string): nat
    decreases |s|
  {
    if s == [] then 0 else (if s[0] == '\n' then 1 else 0) + NewlineCount(s[1..])
  }

  lemma {:induction false} EscapeLength(s: string)
    ensures |Escape(s)| == |s| + 4 * NewlineCount(s)
    decreases |s|
  {
    if s != [] { EscapeLength(s[1..]); }
  }

  /** Python's `" | ".join(cells)`. */
  function JoinCells(cells: seq<string>): string
  {
    if cells == [] then ""
    else if |cells| == 1 then cells[0]
    else cells[0] + " | " + JoinCells(cells[1..])
  }

  /** Joining cells free of newlines gives text free of newlines. */
  lemma {:induction false} JoinCellsNoNewline(cells: seq<string>)
    requires forall j :: 0 <= j < |cells| ==> '\n' !in cells[j]
    ensures '\n' !in JoinCells(cells)
  {
    if |cells| > 1 {
      JoinCellsNoNewline(cells[1..]);
    }
  }
}
