/** The two pieces of the Rust standard library the codec relies on to cut text:
    `str::split_terminator` (cutting a line at every separator) and
    `BufRead::lines` (cutting a stream into lines). */
module Text {

  /** Index of the first occurrence of `c` in `s`. */
  function IndexOf(s: string, c: char): (i: nat)
    requires c in s
    ensures i < |s| && s[i] == c
    ensures c !in s[..i]
  {
    if s[0] == c then 0
    else
      assert s == [s[0]] + s[1..];
      var j := IndexOf(s[1..], c);
      assert s[..j + 1] == [s[0]] + s[1..][..j];
      j + 1
  }

  /** The first occurrence of a character is the one no earlier position holds. */
  lemma IndexOfUnique(s: string, c: char, i: nat)
    requires i < |s| && s[i] == c && c !in s[..i]
    ensures IndexOf(s, c) == i
  {
  }

  /** In `a + [c] + b` with no `c` in `a`, the first `c` is the one after `a`. */
  lemma IndexOfAfter(a: string, c: char, b: string)
    requires c !in a
    ensures c in a + [c] + b
    ensures IndexOf(a + [c] + b, c) == |a|
  {
    var s := a + [c] + b;
    assert s[|a|] == c;
    assert s[..|a|] == a;
    IndexOfUnique(s, c, |a|);
  }

  /** The pieces of `s` between occurrences of `c`, like Rust's `str::split`: every
      occurrence separates two pieces, so there is always at least one piece. */
  function Split(s: string, c: char): (pieces: seq<string>)
    ensures |pieces| > 0
    ensures forall p | p in pieces :: c !in p
    decreases |s|
  {
    if c !in s then [s]
    else
      var i := IndexOf(s, c);
      [s[..i]] + Split(s[i + 1..], c)
  }

  /** The pieces glued back together with `c` between consecutive ones. */
  function Join(pieces: seq<string>, c: char): string
    requires |pieces| > 0
  {
    if |pieces| == 1 then pieces[0]
    else pieces[0] + [c] + Join(pieces[1..], c)
  }

  /** Joining the pieces of a split gives back the text. */
  lemma {:induction false} JoinSplit(s: string, c: char)
    ensures Join(Split(s, c), c) == s
    decreases |s|
  {
    if c in s {
      var i := IndexOf(s, c);
      JoinSplit(s[i + 1..], c);
      assert s == s[..i] + [c] + s[i + 1..];
    }
  }

  /** Splitting a join of separator-free pieces gives back the pieces. */
  lemma {:induction false} SplitJoin(pieces: seq<string>, c: char)
    requires |pieces| > 0
    requires forall p | p in pieces :: c !in p
    ensures Split(Join(pieces, c), c) == pieces
  {
    if |pieces| > 1 {
      var rest := Join(pieces[1..], c);
      IndexOfAfter(pieces[0], c, rest);
      var s := pieces[0] + [c] + rest;
      assert s[..|pieces[0]|] == pieces[0];
      assert s[|pieces[0]| + 1..] == rest;
      SplitJoin(pieces[1..], c);
      assert pieces == [pieces[0]] + pieces[1..];
    }
  }

  /** `Split` and `Join` are inverse: the pieces of `s` are exactly the separator-free
      sequences that join to `s`. */
  lemma SplitIff(s: string, c: char, pieces: seq<string>)
    ensures Split(s, c) == pieces <==>
              |pieces| > 0 && (forall p | p in pieces :: c !in p) && Join(pieces, c) == s
  {
    if Split(s, c) == pieces {
      JoinSplit(s, c);
    }
    if |pieces| > 0 && (forall p | p in pieces :: c !in p) && Join(pieces, c) == s {
      SplitJoin(pieces, c);
    }
  }

  /** Rust's `str::split_terminator`: the pieces of `split`, except that one trailing
      empty piece is dropped. */
  function SplitTerminator(s: string, c: char): (pieces: seq<string>)
    ensures forall p | p in pieces :: c !in p
  {
    var all := Split(s, c);
    if all[|all| - 1] == "" then all[..|all| - 1] else all
  }

  /** Joining two pieces and an empty third one leaves a trailing separator. */
  lemma JoinThree(k: string, v: string, c: char)
    ensures Join([k, v, ""], c) == k + [c] + v + [c]
  {
    assert [k, v, ""][1..] == [v, ""];
    assert [v, ""][1..] == [""];
    assert Join([v, ""], c) == v + [c];
  }

  /** The shapes of a text that cuts into two pieces. */
  lemma SplitTerminatorPairOnly(s: string, c: char, k: string, v: string)
    requires SplitTerminator(s, c) == [k, v]
    ensures c !in k && c !in v && ((s == k + [c] + v && v != "") || s == k + [c] + v + [c])
  {
    var all := Split(s, c);
    assert k in SplitTerminator(s, c) && v in SplitTerminator(s, c);
    if all[|all| - 1] == "" {
      assert all == all[..|all| - 1] + [""];
      JoinThree(k, v, c);
      SplitIff(s, c, [k, v, ""]);
    } else {
      assert Join([k, v], c) == k + [c] + v;
      SplitIff(s, c, [k, v]);
    }
  }

  /** One separator with a non-empty text after it: two pieces. */
  lemma SplitTerminatorOnce(k: string, c: char, v: string)
    requires c !in k && c !in v && v != ""
    ensures SplitTerminator(k + [c] + v, c) == [k, v]
  {
    assert Join([k, v], c) == k + [c] + v;
    SplitJoin([k, v], c);
  }

  /** A second separator at the very end is dropped: still two pieces. */
  lemma SplitTerminatorTwice(k: string, c: char, v: string)
    requires c !in k && c !in v
    ensures SplitTerminator(k + [c] + v + [c], c) == [k, v]
  {
    JoinThree(k, v, c);
    SplitJoin([k, v, ""], c);
    assert [k, v, ""][..2] == [k, v];
  }

  /** Texts of those shapes cut into two pieces. */
  lemma SplitTerminatorPairIf(s: string, c: char, k: string, v: string)
    requires c !in k && c !in v
    requires (s == k + [c] + v && v != "") || s == k + [c] + v + [c]
    ensures SplitTerminator(s, c) == [k, v]
  {
    if s == k + [c] + v && v != "" {
      SplitTerminatorOnce(k, c, v);
    } else {
      SplitTerminatorTwice(k, c, v);
    }
  }

  /** The texts that `split_terminator` cuts into exactly two pieces `k` and `v`: the
      separator occurs once, with a non-empty `v` after it, or it occurs twice with
      nothing after the second one. */
  lemma SplitTerminatorPair(s: string, c: char, k: string, v: string)
    ensures SplitTerminator(s, c) == [k, v] <==>
              c !in k && c !in v && ((s == k + [c] + v && v != "") || s == k + [c] + v + [c])
  {
    if SplitTerminator(s, c) == [k, v] {
      SplitTerminatorPairOnly(s, c, k, v);
    }
    if c !in k && c !in v && ((s == k + [c] + v && v != "") || s == k + [c] + v + [c]) {
      SplitTerminatorPairIf(s, c, k, v);
    }
  }

  /** A text without the separator is one piece (the empty text is none). */
  lemma SplitTerminatorNoSeparator(s: string, c: char)
    requires c !in s
    ensures SplitTerminator(s, c) == (if s == "" then [] else [s])
  {
  }

  /* `split_terminator('=')` on two edge cases: a bare trailing `=` is dropped, so
     `k=v=` still gives two pieces, and an empty key survives as an empty piece. */

  lemma SplitTerminatorTrailingSeparator()
    ensures SplitTerminator("k=v=", '=') == ["k", "v"]
  {
    SplitTerminatorTwice("k", '=', "v");
    assert "k" + ['='] + "v" + ['='] == "k=v=";
  }

  lemma SplitTerminatorEmptyKey()
    ensures SplitTerminator("=v", '=') == ["", "v"]
  {
    SplitTerminatorOnce("", '=', "v");
    assert "" + ['='] + "v" == "=v";
  }

  /** A line as `BufRead::lines` hands it out: a carriage return left before the
      newline is removed. */
  function StripCR(line: string): string
  {
    if |line| > 0 && line[|line| - 1] == '\r' then line[..|line| - 1] else line
  }

  /** Rust's `BufRead::lines`: the text cut at every newline, each line losing one `\r`
      that stood before its newline; a final line without a newline is kept as it is,
      and the text after the last newline yields no line when it is empty. */
  function Lines(s: string): (lines: seq<string>)
    ensures forall l | l in lines :: '\n' !in l
    decreases |s|
  {
    if s == [] then []
    else if '\n' !in s then [s]
    else
      var i := IndexOf(s, '\n');
      var line := StripCR(s[..i]);
      assert forall j | 0 <= j < |line| :: line[j] == s[..i][j];
      [line] + Lines(s[i + 1..])
  }

  /** A text that `Lines` reads back unchanged once a newline is written after it. */
  predicate IsLine(l: string)
  {
    '\n' !in l && !(|l| > 0 && l[|l| - 1] == '\r')
  }

  /** Each line followed by a newline: the way a writer emits lines. */
  function Unlines(lines: seq<string>): string
  {
    if lines == [] then "" else lines[0] + "\n" + Unlines(lines[1..])
  }

  /** The first line of a text is everything before its first newline. */
  lemma LinesCons(l: string, tail: string)
    requires '\n' !in l
    ensures Lines(l + "\n" + tail) == [StripCR(l)] + Lines(tail)
  {
    var s := l + "\n" + tail;
    IndexOfAfter(l, '\n', tail);
    assert s[..|l|] == l;
    assert s[|l| + 1..] == tail;
  }

  /** The first written line, then the rest. */
  lemma UnlinesCons(lines: seq<string>, rest: string)
    requires lines != []
    ensures Unlines(lines) + rest == lines[0] + "\n" + (Unlines(lines[1..]) + rest)
  {
  }

  /** Every line as `Lines` hands it out, its final carriage return removed. */
  function StripEach(lines: seq<string>): seq<string>
  {
    if lines == [] then [] else [StripCR(lines[0])] + StripEach(lines[1..])
  }

  /** Lines without a final carriage return are handed out unchanged. */
  lemma {:induction false} StripEachLines(lines: seq<string>)
    requires forall l | l in lines :: IsLine(l)
    ensures StripEach(lines) == lines
  {
    if lines != [] {
      assert lines[0] in lines;
      assert forall m | m in lines[1..] :: m in lines;
      StripEachLines(lines[1..]);
    }
  }

  /** Reading back written lines: `Lines` undoes `Unlines`, up to the carriage
      return it drops before each newline, whatever text follows. */
  lemma {:induction false} LinesUnlines(lines: seq<string>, rest: string)
    requires forall l | l in lines :: '\n' !in l
    ensures Lines(Unlines(lines) + rest) == StripEach(lines) + Lines(rest)
  {
    if lines == [] {
      assert Unlines(lines) + rest == rest;
    } else {
      var l, tail := lines[0], Unlines(lines[1..]) + rest;
      assert l in lines;
      assert forall m | m in lines[1..] :: m in lines;
      calc {
        Lines(Unlines(lines) + rest);
        { UnlinesCons(lines, rest); }
        Lines(l + "\n" + tail);
        { LinesCons(l, tail); }
        [StripCR(l)] + Lines(tail);
        { LinesUnlines(lines[1..], rest); }
        [StripCR(l)] + (StripEach(lines[1..]) + Lines(rest));
        StripEach(lines) + Lines(rest);
      }
    }
  }

  /** An empty line at the front of the text is read as the line "". */
  lemma LinesBlankFirst(rest: string)
    ensures Lines("\n" + rest) == [""] + Lines(rest)
  {
    LinesCons("", rest);
    assert "" + "\n" + rest == "\n" + rest;
  }

  /** The lines of whole lines, then an empty line, then any text: the empty line
      sits right after the written ones. */
  lemma LinesBlankAfter(lines: seq<string>, rest: string)
    requires forall l | l in lines :: '\n' !in l
    ensures Lines(Unlines(lines)) == StripEach(lines)
    ensures Lines(Unlines(lines) + "\n" + rest) == StripEach(lines) + [""] + Lines(rest)
  {
    assert Unlines(lines) + "\n" + rest == Unlines(lines) + ("\n" + rest);
    LinesUnlines(lines, "\n" + rest);
    LinesBlankFirst(rest);
    assert StripEach(lines) + ([""] + Lines(rest)) == StripEach(lines) + [""] + Lines(rest);
    LinesUnlines(lines, "");
    assert Unlines(lines) + "" == Unlines(lines);
    assert Lines("") == [];
    assert StripEach(lines) + [] == StripEach(lines);
  }
}
