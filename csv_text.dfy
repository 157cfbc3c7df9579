/** The text of one line of the file: quoted cells each followed by `;`, and the
    inverse, which splits with `getline(stream, item, ';')` and then deletes every
    `"` from each piece. Nothing is escaped, so the inverse is exact only for cells
    that avoid `;`, `"` and the line break. */
module CsvText {
  import opened Wrappers

  const Delimiter: char := ';'
  const Quote: char := '"'
  const LineBreak: char := '\n'

  /** One cell as the stream receives it: `"` + value + `";`. */
  function Cell(v: string): string
  {
    [Quote] + v + [Quote, Delimiter]
  }

  /** The cells of a line, written left to right. */
  function EncodeCells(vs: seq<string>): string
  {
    if vs == [] then "" else EncodeCells(vs[..|vs| - 1]) + Cell(vs[|vs| - 1])
  }

  /** Position of the first `c` in `s`, or `|s|` when there is none. */
  function IndexOf(s: string, c: char): (j: nat)
    ensures j <= |s|
  {
    if s == [] then 0
    else if s[0] == c then 0
    else 1 + IndexOf(s[1..], c)
  }

  /** `IndexOf` stops at the first `c`: none comes before it. */
  lemma {:induction false} IndexOfSpec(s: string, c: char)
    ensures IndexOf(s, c) < |s| ==> s[IndexOf(s, c)] == c
    ensures c !in s[..IndexOf(s, c)]
  {
    if s != [] && s[0] != c {
      IndexOfSpec(s[1..], c);
      assert s[..IndexOf(s, c)] == [s[0]] + s[1..][..IndexOf(s[1..], c)];
    }
  }

  /** The pieces that repeated `getline(stream, item, ';')` extracts from `s`: the
      text is cut at every `;`, and a call that finds the stream exhausted before
      extracting anything fails, so an empty last piece is not produced. */
  function Tokens(s: string): (r: seq<string>)
    ensures r == [] <==> s == []
    decreases |s|
  {
    if s == [] then []
    else
      var j := IndexOf(s, Delimiter);
      if j == |s| then [s] else [s[..j]] + Tokens(s[j + 1..])
  }

  /** One call of `getline(stream, item, ';')` on a stream over `s` positioned at
      `pos`: the extracted piece and the position after it, or nothing when the call
      fails. */
  function Getline(s: string, pos: nat): (r: Option<(string, nat)>)
    ensures r.None? <==> pos >= |s|
    ensures r.Some? ==> pos < r.value.1 <= |s|
  {
    if pos >= |s| then None
    else
      var rest := s[pos..];
      var j := IndexOf(rest, Delimiter);
      if j == |rest| then Some((rest, |s|)) else Some((rest[..j], pos + j + 1))
  }

  /** A non-empty line without a `;` is a single piece. */
  lemma {:induction false} TokensWhole(s: string)
    requires s != [] && IndexOf(s, Delimiter) == |s|
    ensures Tokens(s) == [s]
  {
  }

  /** Calling `getline` repeatedly from `pos` yields exactly the pieces of the rest
      of the line. */
  lemma {:induction false} GetlineTokens(s: string, pos: nat)
    requires Getline(s, pos).Some?
    ensures Tokens(s[pos..]) == [Getline(s, pos).value.0] + Tokens(s[Getline(s, pos).value.1..])
  {
    var rest := s[pos..];
    var j := IndexOf(rest, Delimiter);
    var piece := Getline(s, pos).value.0;
    var next := Getline(s, pos).value.1;
    if j == |rest| {
      TokensWhole(rest);
      assert piece == rest && next == |s|;
      assert s[next..] == [];
    } else {
      TokensSplit(rest, j);
      assert piece == rest[..j] && next == pos + j + 1;
      assert s[next..] == rest[j + 1..];
    }
  }

  /** `item.erase(remove(item.begin(), item.end(), '"'), item.end())`. */
  function Unquote(t: string): (r: string)
    ensures Quote !in r
    ensures |r| <= |t|
  {
    if t == [] then []
    else (if t[0] == Quote then [] else [t[0]]) + Unquote(t[1..])
  }

  function UnquoteAll(ts: seq<string>): (r: seq<string>)
    ensures |r| == |ts|
  {
    if ts == [] then [] else [Unquote(ts[0])] + UnquoteAll(ts[1..])
  }

  lemma UnquoteAllCons(t: string, ts: seq<string>)
    ensures UnquoteAll([t] + ts) == [Unquote(t)] + UnquoteAll(ts)
  {
    assert ([t] + ts)[1..] == ts;
  }

  /** The values (or column names) read back from a line. */
  function Decode(line: string): seq<string>
  {
    UnquoteAll(Tokens(line))
  }

  /** A value the format can carry unchanged. */
  predicate Clean(v: string)
  {
    Delimiter !in v && Quote !in v && LineBreak !in v
  }

  predicate AllClean(vs: seq<string>)
  {
    forall i :: 0 <= i < |vs| ==> Clean(vs[i])
  }

  /** Each piece followed by `;`: the text the pieces were cut from. */
  function Terminated(ts: seq<string>): string
  {
    if ts == [] then "" else ts[0] + [Delimiter] + Terminated(ts[1..])
  }

  predicate NoDelimiterIn(ts: seq<string>)
  {
    forall i :: 0 <= i < |ts| ==> Delimiter !in ts[i]
  }

  /** A line is its part before position `j`, the character there and the rest. */
  lemma SplitAt(s: string, j: nat)
    requires j < |s|
    ensures s == s[..j] + [s[j]] + s[j + 1..]
  {
  }

  /** A split at the first delimiter. */
  lemma {:induction false} TokensSplit(s: string, j: nat)
    requires j == IndexOf(s, Delimiter) && j < |s|
    ensures Tokens(s) == [s[..j]] + Tokens(s[j + 1..])
    ensures s == s[..j] + [Delimiter] + s[j + 1..]
    ensures Delimiter !in s[..j]
  {
    assert Tokens(s) == [s[..j]] + Tokens(s[j + 1..]);
    IndexOfSpec(s, Delimiter);
    SplitAt(s, j);
  }

  lemma TerminatedCons(t: string, ts: seq<string>)
    ensures Terminated([t] + ts) == t + [Delimiter] + Terminated(ts)
  {
    assert ([t] + ts)[1..] == ts;
  }

  /** No piece holds a `;`. */
  lemma {:induction false} TokensNoDelimiter(s: string)
    ensures NoDelimiterIn(Tokens(s))
    decreases |s|
  {
    if s != [] {
      var j := IndexOf(s, Delimiter);
      IndexOfSpec(s, Delimiter);
      if j < |s| {
        var head, rest := s[..j], s[j + 1..];
        TokensSplit(s, j);
        TokensNoDelimiter(rest);
        var ts := Tokens(rest);
        forall i | 0 <= i < |[head] + ts|
          ensures Delimiter !in ([head] + ts)[i]
        {
          if i > 0 {
            assert ([head] + ts)[i] == ts[i - 1];
          }
        }
      } else {
        TokensWhole(s);
        assert s[..j] == s;
      }
    }
  }

  /** The line, terminated as `TokensTerminated` states. */
  function Closed(s: string): string
  {
    if s == [] || s[|s| - 1] == Delimiter then s else s + [Delimiter]
  }

  lemma {:induction false} TerminatedWhole(s: string)
    requires s != [] && IndexOf(s, Delimiter) == |s|
    ensures Terminated(Tokens(s)) == Closed(s)
  {
    IndexOfSpec(s, Delimiter);
    TokensWhole(s);
    TerminatedCons(s, []);
    assert s[|s| - 1] != Delimiter by {
      assert s[..|s|] == s;
    }
  }

  lemma ClosedCons(head: string, rest: string)
    ensures head + [Delimiter] + Closed(rest) == Closed(head + [Delimiter] + rest)
  {
    var s := head + [Delimiter] + rest;
    if rest != [] {
      assert s[|s| - 1] == rest[|rest| - 1];
      if rest[|rest| - 1] != Delimiter {
        assert head + [Delimiter] + (rest + [Delimiter]) == s + [Delimiter];
      }
    }
  }

  lemma {:induction false} TerminatedStep(s: string, j: nat)
    requires j == IndexOf(s, Delimiter) && j < |s|
    requires Terminated(Tokens(s[j + 1..])) == Closed(s[j + 1..])
    ensures Terminated(Tokens(s)) == Closed(s)
  {
    var head, rest := s[..j], s[j + 1..];
    TokensSplit(s, j);
    TerminatedCons(head, Tokens(rest));
    ClosedCons(head, rest);
  }

  /** The pieces, each followed by `;`, give back the line, with a `;` added when
      it did not already end in one. */
  lemma {:induction false} TokensTerminated(s: string)
    ensures Terminated(Tokens(s)) == Closed(s)
    decreases |s|
  {
    if s != [] {
      var j := IndexOf(s, Delimiter);
      if j == |s| {
        TerminatedWhole(s);
      } else {
        TokensTerminated(s[j + 1..]);
        TerminatedStep(s, j);
      }
    }
  }

  /** The pieces hold no `;`, and put back together with a `;` after each they give
      the line itself, with a `;` added when the line did not already end in one. */
  lemma TokensRejoin(s: string)
    ensures NoDelimiterIn(Tokens(s))
    ensures Terminated(Tokens(s)) ==
            if s == [] || s[|s| - 1] == Delimiter then s else s + [Delimiter]
  {
    TokensNoDelimiter(s);
    TokensTerminated(s);
  }

  lemma EncodeCellsSnoc(vs: seq<string>, v: string)
    ensures EncodeCells(vs + [v]) == EncodeCells(vs) + Cell(v)
  {
    assert (vs + [v])[..|vs|] == vs;
  }

  lemma {:induction false} EncodeCellsCons(v: string, vs: seq<string>)
    ensures EncodeCells([v] + vs) == Cell(v) + EncodeCells(vs)
    decreases |vs|
  {
    if vs != [] {
      var n := |vs|;
      assert ([v] + vs)[..n] == [v] + vs[..n - 1];
      EncodeCellsCons(v, vs[..n - 1]);
    } else {
      assert EncodeCells([v]) == EncodeCells([]) + Cell(v);
    }
  }

  lemma {:induction false} UnquoteAppend(a: string, b: string)
    ensures Unquote(a + b) == Unquote(a) + Unquote(b)
    decreases |a|
  {
    if a != [] {
      assert (a + b)[1..] == a[1..] + b;
      UnquoteAppend(a[1..], b);
    } else {
      assert a + b == b;
    }
  }

  lemma {:induction false} UnquoteUnchanged(t: string)
    requires Quote !in t
    ensures Unquote(t) == t
    decreases |t|
  {
    if t != [] {
      UnquoteUnchanged(t[1..]);
      assert t == [t[0]] + t[1..];
    }
  }

  lemma IndexOfAfter(p: string, rest: string, c: char)
    requires c !in p
    ensures IndexOf(p + [c] + rest, c) == |p|
  {
    var s := p + [c] + rest;
    var j := IndexOf(s, c);
    IndexOfSpec(s, c);
    assert s[|p|] == c;
    assert forall i :: 0 <= i < |p| ==> s[i] == p[i];
  }

  /** Header and body round trip: decoding an encoded line gives back its values. */
  lemma {:induction false} DecodeEncode(vs: seq<string>)
    requires AllClean(vs)
    ensures Decode(EncodeCells(vs)) == vs
    decreases |vs|
  {
    if vs != [] {
      var v, rest := vs[0], vs[1..];
      var p := [Quote] + v + [Quote];
      var tail := EncodeCells(rest);
      EncodeCellsCons(v, rest);
      assert vs == [v] + rest;
      var s := EncodeCells(vs);
      assert s == p + [Delimiter] + tail;
      IndexOfAfter(p, tail, Delimiter);
      assert s[..|p|] == p && s[|p| + 1..] == tail;
      assert Tokens(s) == [p] + Tokens(tail);
      UnquoteAppend([Quote] + v, [Quote]);
      UnquoteAppend([Quote], v);
      UnquoteUnchanged(v);
      assert Unquote([Quote]) == [];
      assert Unquote(p) == v;
      assert forall i :: 0 <= i < |rest| ==> Clean(rest[i]) by {
        forall i | 0 <= i < |rest| ensures Clean(rest[i]) {
          assert rest[i] == vs[i + 1];
        }
      }
      DecodeEncode(rest);
    }
  }

  /** The piece counts of the three edge cases of `getline` splitting. */
  lemma TokensExamples()
    ensures Tokens("a;b;") == ["a", "b"]
    ensures Tokens("a;b") == ["a", "b"]
    ensures Tokens("") == []
    ensures Tokens(";") == [""]
  {
    assert IndexOf("a;b;", Delimiter) == 1;
    assert "a;b;"[..1] == "a" && "a;b;"[2..] == "b;";
    assert IndexOf("b;", Delimiter) == 1;
    assert "b;"[..1] == "b" && "b;"[2..] == "";
    assert Tokens("b;") == ["b"];
    assert IndexOf("a;b", Delimiter) == 1;
    assert "a;b"[..1] == "a" && "a;b"[2..] == "b";
    assert IndexOf("b", Delimiter) == 1;
    assert Tokens("b") == ["b"];
    assert IndexOf(";", Delimiter) == 0;
    assert ";"[1..] == "";
  }
}
