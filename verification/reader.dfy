/** Reading a credential record from its line format (`GitCredential::from_reader`).

    The reader takes the input line by line and stops at the first empty line or at
    the end of the input. Each line is cut at every `=`; a line that gives exactly a
    key and a value sets the field that key names, a `url` value going through the
    URL parser. Lines of any other shape and unknown keys are skipped; a `url` value
    the parser rejects fails the whole read. */
module Reader {
  import opened Wrappers
  import opened Text
  import opened Credential

  /** The attribute a line carries, when the reader acts on it: the line must cut into
      exactly a key and a value, and the key must be one of the six names. Every other
      line is skipped (the source only logs it). */
  function Recognise(line: string): (e: Option<Entry>)
    ensures e.Some? ==>
              '=' !in e.value.1 &&
              ((line == Name(e.value.0) + "=" + e.value.1 && e.value.1 != "") ||
               line == Name(e.value.0) + "=" + e.value.1 + "=")
  {
    var pieces := SplitTerminator(line, '=');
    if |pieces| != 2 then None
    else
      SplitTerminatorPair(line, '=', pieces[0], pieces[1]);
      match KeyNamed(pieces[0])
      case None => None
      case Some(k) => Some((k, pieces[1]))
  }

  /** Exactly the lines `key=value` (with a non-empty value) and `key=value=` carry an
      attribute, for `key` one of the six names and `value` free of `=`. */
  lemma RecogniseIff(line: string, k: Key, v: string)
    ensures Recognise(line) == Some((k, v)) <==>
              '=' !in v && ((line == Name(k) + "=" + v && v != "") || line == Name(k) + "=" + v + "=")
  {
    NameProperties(k);
    SplitTerminatorPair(line, '=', Name(k), v);
  }

  /** A line without `=` carries nothing. */
  lemma NoSeparatorSkipped(line: string)
    requires '=' !in line
    ensures Recognise(line) == None
  {
    SplitTerminatorNoSeparator(line, '=');
  }

  /** In `name=rest` with no `=` in `name`, the first piece is `name` and another
      follows. */
  lemma FirstPiece(name: string, rest: string)
    requires '=' !in name
    ensures |Split(name + "=" + rest, '=')| >= 2
    ensures Split(name + "=" + rest, '=')[0] == name
  {
    var line := name + "=" + rest;
    IndexOfAfter(name, '=', rest);
    assert line[..|name|] == name;
  }

  /** A key the format does not know carries nothing, whatever its value. */
  lemma UnknownKeySkipped(name: string, value: string)
    requires '=' !in name && KeyNamed(name).None?
    ensures Recognise(name + "=" + value) == None
  {
    FirstPiece(name, value);
  }

  /** A key with an empty value, `key=`, carries nothing: the field keeps what it had. */
  lemma EmptyValueSkipped(name: string)
    requires '=' !in name
    ensures Recognise(name + "=") == None
  {
    assert Join([name, ""], '=') == name + "=";
    SplitJoin([name, ""], '=');
  }

  /** A value holding `=` is cut there too: `key=a=b`, with something after the second
      `=`, carries nothing, whatever the key. */
  lemma ValueWithSeparatorSkipped(name: string, a: string, b: string)
    requires '=' !in name && '=' !in a && '=' !in b && b != ""
    ensures Split(name + "=" + a + "=" + b, '=') == [name, a, b]
    ensures Recognise(name + "=" + a + "=" + b) == None
  {
    var pieces := [name, a, b];
    assert pieces[1..] == [a, b];
    assert Join([a, b], '=') == a + "=" + b;
    assert Join(pieces, '=') == name + "=" + a + "=" + b;
    SplitJoin(pieces, '=');
  }

  /** Storing one attribute: a string value is stored verbatim in its own field; a
      `url` value is parsed, and one the parser rejects is the error, carrying it. */
  function Apply<U>(urls: UrlSyntax<U>, gc: GitCredential<U>, e: Entry): (r: Result<GitCredential<U>, Error>)
    ensures r.Failure? <==> BadUrl(urls, e)
    ensures r.Failure? ==> r.error == ParseError(e.1)
    ensures r.Success? && e.0 == Url ==>
              r.value.url == urls.parse(e.1) &&
              forall k: Key | k != Url :: Get(r.value, k) == Get(gc, k)
    ensures r.Success? && e.0 != Url ==>
              r.value.url == gc.url && Get(r.value, e.0) == Some(e.1) &&
              forall k: Key | k != Url && k != e.0 :: Get(r.value, k) == Get(gc, k)
  {
    if e.0 == Url then
      match urls.parse(e.1)
      case Some(u) => Success(gc.(url := Some(u)))
      case None => Failure(ParseError(e.1))
    else Success(Set(gc, e.0, e.1))
  }

  /** One line of input: skipped unless it carries an attribute, which is then stored. */
  function ApplyLine<U>(urls: UrlSyntax<U>, gc: GitCredential<U>, line: string): Result<GitCredential<U>, Error>
  {
    match Recognise(line)
    case None => Success(gc)
    case Some(e) => Apply(urls, gc, e)
  }

  /** The reading loop: lines are applied in order until an empty line or the end of
      the input; the first failure ends the read. */
  function ParseLines<U>(urls: UrlSyntax<U>, gc: GitCredential<U>, lines: seq<string>): (r: Result<GitCredential<U>, Error>)
    ensures r.Failure? ==>
              exists line | line in Active(lines) ::
                Recognise(line) == Some((Url, r.error.value)) && urls.parse(r.error.value).None?
    decreases |lines|
  {
    if lines == [] || lines[0] == "" then Success(gc)
    else
      match ApplyLine(urls, gc, lines[0])
      case Failure(err) => Failure(err)
      case Success(next) => ParseLines(urls, next, lines[1..])
  }

  /** `GitCredential::from_reader`: the record read from `input`, starting from the
      record with every field unset. */
  function FromReader<U>(urls: UrlSyntax<U>, input: string): (r: Result<GitCredential<U>, Error>)
    ensures r == Store(urls, Default(), Recognised(Active(Lines(input))))
  {
    ParseLinesIsStore(urls, Default(), Lines(input));
    ParseLines(urls, Default(), Lines(input))
  }

  // ---------------------------------------------------------------------------
  // A reference description of reading: keep the lines before the first empty
  // one, keep the attributes they carry, store those in order.

  /** The lines the reader looks at: those before the first empty line. */
  function Active(lines: seq<string>): (a: seq<string>)
    ensures a <= lines
    ensures "" !in a
    ensures |a| < |lines| ==> lines[|a|] == ""
  {
    if lines == [] || lines[0] == "" then []
    else [lines[0]] + Active(lines[1..])
  }

  /** The attributes the lines carry, in order. */
  function Recognised(lines: seq<string>): seq<Entry>
  {
    if lines == [] then []
    else
      (match Recognise(lines[0]) case Some(e) => [e] case None => []) + Recognised(lines[1..])
  }

  /** Storing attributes in order, stopping at the first failure. */
  function Store<U>(urls: UrlSyntax<U>, gc: GitCredential<U>, es: seq<Entry>): Result<GitCredential<U>, Error>
    decreases |es|
  {
    if es == [] then Success(gc)
    else
      match Apply(urls, gc, es[0])
      case Failure(err) => Failure(err)
      case Success(next) => Store(urls, next, es[1..])
  }

  /** A `url` attribute whose value the parser rejects. */
  predicate BadUrl<U>(urls: UrlSyntax<U>, e: Entry)
  {
    e.0 == Url && urls.parse(e.1).None?
  }

  /** The value of the last attribute with key `k`, if there is one. */
  ghost function Last(es: seq<Entry>, k: Key): (v: Option<string>)
    ensures v.None? <==> forall i | 0 <= i < |es| :: es[i].0 != k
    ensures v.Some? ==>
              exists i | 0 <= i < |es| :: es[i] == (k, v.value) && forall j | i < j < |es| :: es[j].0 != k
  {
    if es == [] then None
    else
      var later := Last(es[1..], k);
      if later.Some? then
        var i :| 0 <= i < |es[1..]| && es[1..][i] == (k, later.value) &&
                 forall j | i < j < |es[1..]| :: es[1..][j].0 != k;
        assert es[i + 1] == (k, later.value);
        assert forall j | i + 1 < j < |es| :: es[j] == es[1..][j - 1];
        later
      else if es[0].0 == k then
        assert forall j | 0 < j < |es| :: es[j] == es[1..][j - 1];
        Some(es[0].1)
      else
        assert forall j | 0 < j < |es| :: es[j] == es[1..][j - 1];
        None
  }

  /** In an ordered list the last attribute with a key is its only one. */
  lemma LastOrdered(es: seq<Entry>, k: Key, v: string)
    requires Ordered(es)
    ensures Last(es, k) == Some(v) <==> (k, v) in es
  {
    OrderedRanks(es);
    if (k, v) in es {
      var i :| 0 <= i < |es| && es[i] == (k, v);
      assert Last(es, k).Some?;
      var m :| 0 <= m < |es| && es[m] == (k, Last(es, k).value) &&
               forall j | m < j < |es| :: es[j].0 != k;
      assert forall x, y | 0 <= x < y < |es| :: es[x].0 != es[y].0;
      assert i == m;
    }
  }

  /** The reading loop is the reference description: it stores, in order, the
      attributes of the lines before the first empty line. */
  lemma {:induction false} ParseLinesIsStore<U>(urls: UrlSyntax<U>, gc: GitCredential<U>, lines: seq<string>)
    ensures ParseLines(urls, gc, lines) == Store(urls, gc, Recognised(Active(lines)))
    decreases |lines|
  {
    if lines != [] && lines[0] != "" {
      var rest := Active(lines[1..]);
      assert Active(lines) == [lines[0]] + rest;
      assert ([lines[0]] + rest)[1..] == rest;
      match Recognise(lines[0])
      case None =>
        assert Recognised(Active(lines)) == Recognised(rest);
        ParseLinesIsStore(urls, gc, lines[1..]);
      case Some(e) =>
        assert Recognised(Active(lines)) == [e] + Recognised(rest);
        assert ([e] + Recognised(rest))[1..] == Recognised(rest);
        match Apply(urls, gc, e)
        case Failure(err) =>
        case Success(next) =>
          ParseLinesIsStore(urls, next, lines[1..]);
    }
  }

  /** Storing fails exactly when some `url` value is rejected, and then with the
      first rejected value. */
  lemma {:induction false} StoreOutcome<U>(urls: UrlSyntax<U>, gc: GitCredential<U>, es: seq<Entry>)
    ensures Store(urls, gc, es).Success? <==> forall i | 0 <= i < |es| :: !BadUrl(urls, es[i])
    ensures Store(urls, gc, es).Failure? ==>
              exists i | 0 <= i < |es| ::
                && BadUrl(urls, es[i])
                && (forall j | 0 <= j < i :: !BadUrl(urls, es[j]))
                && Store(urls, gc, es).error == ParseError(es[i].1)
    decreases |es|
  {
    if es != [] {
      assert forall j | 0 < j < |es| :: es[j] == es[1..][j - 1];
      match Apply(urls, gc, es[0])
      case Failure(err) =>
        assert BadUrl(urls, es[0]);
      case Success(next) =>
        assert !BadUrl(urls, es[0]);
        StoreOutcome(urls, next, es[1..]);
        if Store(urls, gc, es).Failure? {
          var i :| 0 <= i < |es[1..]| && BadUrl(urls, es[1..][i]) &&
                   (forall j | 0 <= j < i :: !BadUrl(urls, es[1..][j])) &&
                   Store(urls, next, es[1..]).error == ParseError(es[1..][i].1);
          assert BadUrl(urls, es[i + 1]);
        }
    }
  }

  /** After a successful store each field holds the value of the last attribute that
      names it, or what it held before when no attribute does; a `url` value is stored
      as parsed. */
  lemma {:induction false} StoreLastWins<U>(urls: UrlSyntax<U>, gc: GitCredential<U>, es: seq<Entry>, r: GitCredential<U>)
    requires Store(urls, gc, es) == Success(r)
    ensures forall k: Key | k != Url :: Get(r, k) == (if Last(es, k).Some? then Last(es, k) else Get(gc, k))
    ensures r.url == (if Last(es, Url).Some? then urls.parse(Last(es, Url).value) else gc.url)
    decreases |es|
  {
    if es != [] {
      var next := Apply(urls, gc, es[0]).value;
      StoreLastWins(urls, next, es[1..], r);
    }
  }

  // ---------------------------------------------------------------------------
  // Properties of reading stated on the input itself.

  /** Reading stops at the first empty line: what follows it, a rejected `url` value
      included, has no effect on the outcome. */
  lemma {:induction false} ParseStopsAtBlank<U>(urls: UrlSyntax<U>, gc: GitCredential<U>, lines: seq<string>, rest: seq<string>)
    ensures ParseLines(urls, gc, lines + [""] + rest) == ParseLines(urls, gc, lines)
    decreases |lines|
  {
    var all := lines + [""] + rest;
    if lines == [] {
      assert all[0] == "";
    } else {
      assert all[0] == lines[0];
      assert all[1..] == lines[1..] + [""] + rest;
      if lines[0] != "" {
        match ApplyLine(urls, gc, lines[0])
        case Failure(err) =>
        case Success(next) =>
          ParseStopsAtBlank(urls, next, lines[1..], rest);
      }
    }
  }

  /** A non-empty line that carries no attribute (it does not cut into exactly a key
      and a value, or its key is unknown) can be dropped from anywhere in the input
      without changing the outcome. */
  lemma {:induction false} ParseSkipsLine<U>(urls: UrlSyntax<U>, gc: GitCredential<U>, before: seq<string>, line: string, after: seq<string>)
    requires line != "" && Recognise(line).None?
    ensures ParseLines(urls, gc, before + [line] + after) == ParseLines(urls, gc, before + after)
    decreases |before|
  {
    var with := before + [line] + after;
    var without := before + after;
    if before == [] {
      assert with[0] == line && with[1..] == after;
      assert without == after;
    } else {
      assert with[0] == before[0] && without[0] == before[0];
      assert with[1..] == before[1..] + [line] + after;
      assert without[1..] == before[1..] + after;
      if before[0] != "" {
        match ApplyLine(urls, gc, before[0])
        case Failure(err) =>
        case Success(next) =>
          ParseSkipsLine(urls, next, before[1..], line, after);
      }
    }
  }

  /** On text: an empty line ends the record, so whatever follows the blank line is
      never looked at. The text before it is made of `lines`, each with its newline. */
  lemma FromReaderStopsAtBlankLine<U>(urls: UrlSyntax<U>, lines: seq<string>, rest: string)
    requires forall l | l in lines :: '\n' !in l
    ensures FromReader(urls, Unlines(lines) + "\n" + rest) == FromReader(urls, Unlines(lines))
  {
    LinesBlankAfter(lines, rest);
    ParseStopsAtBlank(urls, Default(), StripEach(lines), Lines(rest));
  }

  /** On text: lines, each written with its newline, then the empty line, are read
      as exactly those lines. */
  lemma FromReaderLines<U>(urls: UrlSyntax<U>, lines: seq<string>)
    requires forall l | l in lines :: IsLine(l)
    ensures FromReader(urls, Unlines(lines) + "\n") == ParseLines(urls, Default(), lines)
  {
    LinesUnlines(lines, "\n");
    StripEachLines(lines);
    LinesBlankFirst("");
    assert "\n" + "" == "\n";
    assert Lines("") == [];
    assert Lines(Unlines(lines) + "\n") == lines + [""] + [];
    ParseStopsAtBlank(urls, Default(), lines, []);
  }

  /** On text: the empty line at the end may be missing. Whole lines, then a last line
      that the input ends without a newline, are read as those lines; that last line
      keeps any carriage return it ends with. */
  lemma FromReaderWithoutBlankLine<U>(urls: UrlSyntax<U>, lines: seq<string>, last: string)
    requires forall l | l in lines :: IsLine(l)
    requires '\n' !in last
    ensures FromReader(urls, Unlines(lines) + last)
            == ParseLines(urls, Default(), if last == "" then lines else lines + [last])
  {
    LinesUnlines(lines, last);
    StripEachLines(lines);
    if last == "" {
      assert lines + Lines(last) == lines;
    }
  }
}
