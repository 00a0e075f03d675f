/** Reading and writing are inverse on the records and texts the format can carry.

    A record survives writing and reading back when every value it shows can sit on a
    `key=value` line and come back unchanged: non-empty (an empty value leaves the
    line `key=`, which the reader skips), free of `=` (the reader cuts at every `=`),
    of newlines, and of a final carriage return (the reader drops one before a
    newline). A URL must also parse back from its own rendering. */
module RoundTrip {
  import opened Wrappers
  import opened Text
  import opened Credential
  import opened Reader
  import opened Writer

  /** A value that can be written on a `key=value` line and read back unchanged. */
  predicate Writable(v: string)
  {
    v != "" && '=' !in v && IsLine(v)
  }

  /** A record that writing then reading gives back. */
  ghost predicate WellFormed<U>(urls: UrlSyntax<U>, gc: GitCredential<U>)
  {
    && (forall k: Key | Shown(urls, gc, k).Some? :: Writable(Shown(urls, gc, k).value))
    && (gc.url.Some? ==> urls.parse(urls.render(gc.url.value)) == Some(gc.url.value))
  }

  /** An input in the writer's own shape: attributes in the fixed key order, no key
      twice, values that survive a line, URL texts in the form the URL type renders. */
  ghost predicate Canonical<U>(urls: UrlSyntax<U>, es: seq<Entry>)
  {
    && Ordered(es)
    && (forall e | e in es :: Writable(e.1))
    && (forall e | e in es && e.0 == Url ::
          urls.parse(e.1).Some? && urls.render(urls.parse(e.1).value) == e.1)
  }

  /** The written line of an attribute with a writable value is read back as that
      attribute. */
  lemma EntryLineRead(e: Entry)
    requires Writable(e.1)
    ensures IsLine(EntryLine(e))
    ensures EntryLine(e) != ""
    ensures Recognise(EntryLine(e)) == Some(e)
  {
    NameProperties(e.0);
    var line := EntryLine(e);
    assert line[|line| - 1] == e.1[|e.1| - 1];
    RecogniseIff(line, e.0, e.1);
  }

  /** Reading the lines of attributes with writable values stores those attributes. */
  lemma {:induction false} ParseEntryLines<U>(urls: UrlSyntax<U>, gc: GitCredential<U>, es: seq<Entry>)
    requires forall e | e in es :: Writable(e.1)
    ensures ParseLines(urls, gc, EntryLines(es)) == Store(urls, gc, es)
    decreases |es|
  {
    if es != [] {
      assert es[0] in es;
      EntryLineRead(es[0]);
      assert EntryLines(es)[0] == EntryLine(es[0]);
      assert EntryLines(es)[1..] == EntryLines(es[1..]);
      assert forall e | e in es[1..] :: e in es;
      match Apply(urls, gc, es[0])
      case Failure(err) =>
      case Success(next) =>
        ParseEntryLines(urls, next, es[1..]);
    }
  }

  /** Written attribute lines with writable values are lines `Lines` reads back unchanged. */
  lemma {:induction false} EntryLinesAreLines(es: seq<Entry>)
    requires forall e | e in es :: Writable(e.1)
    ensures forall l | l in EntryLines(es) :: IsLine(l)
    decreases |es|
  {
    if es != [] {
      assert es[0] in es;
      EntryLineRead(es[0]);
      assert forall e | e in es[1..] :: e in es;
      EntryLinesAreLines(es[1..]);
    }
  }

  /** Reading the written attribute lines followed by the empty line stores the
      attributes, starting from the empty record. */
  lemma ReadWrittenEntries<U>(urls: UrlSyntax<U>, es: seq<Entry>)
    requires forall e | e in es :: Writable(e.1)
    ensures FromReader(urls, Unlines(EntryLines(es)) + "\n") == Store(urls, Default(), es)
  {
    EntryLinesAreLines(es);
    FromReaderLines(urls, EntryLines(es));
    ParseEntryLines(urls, Default(), es);
  }

  /** Storing a record's own attributes into the empty record rebuilds it. */
  lemma StoreEntries<U>(urls: UrlSyntax<U>, gc: GitCredential<U>)
    requires WellFormed(urls, gc)
    ensures Store(urls, Default(), Entries(urls, gc)) == Success(gc)
  {
    var es := Entries(urls, gc);
    StoreOutcome(urls, Default(), es);
    forall i | 0 <= i < |es|
      ensures !BadUrl(urls, es[i])
    {
      assert es[i] in es;
    }
    var r := Store(urls, Default(), es).value;
    StoreLastWins(urls, Default(), es, r);
    forall k: Key | k != Url
      ensures Get(r, k) == Get(gc, k)
    {
      if Get(gc, k).Some? {
        LastOrdered(es, k, Get(gc, k).value);
      } else if Last(es, k).Some? {
        LastOrdered(es, k, Last(es, k).value);
      }
    }
    if gc.url.Some? {
      LastOrdered(es, Url, urls.render(gc.url.value));
    } else if Last(es, Url).Some? {
      LastOrdered(es, Url, Last(es, Url).value);
    }
    Extensionality(r, gc);
  }

  /** Writing a well-formed record and reading the text back gives the record. */
  lemma RoundTrip<U>(urls: UrlSyntax<U>, gc: GitCredential<U>)
    requires WellFormed(urls, gc)
    ensures FromReader(urls, ToWriter(urls, gc)) == Success(gc)
  {
    var es := Entries(urls, gc);
    ToWriterLayout(urls, gc);
    forall e | e in es
      ensures Writable(e.1)
    {
    }
    ReadWrittenEntries(urls, es);
    StoreEntries(urls, gc);
  }

  /** The record read from a canonical input shows exactly the attributes of that
      input. */
  lemma ReadCanonicalEntries<U>(urls: UrlSyntax<U>, es: seq<Entry>, gc: GitCredential<U>)
    requires Canonical(urls, es)
    requires Store(urls, Default(), es) == Success(gc)
    ensures Entries(urls, gc) == es
  {
    StoreLastWins(urls, Default(), es, gc);
    var written := Entries(urls, gc);
    forall e: Entry
      ensures e in written <==> e in es
    {
      var (k, v) := e;
      LastOrdered(es, k, v);
      if k == Url {
        if e in es {
          assert gc.url == urls.parse(v);
        }
        if e in written {
          var w := Last(es, Url).value;
          LastOrdered(es, Url, w);
          assert (Url, w) in es;
        }
      }
    }
    OrderedUnique(written, es);
  }

  /** Reading a canonical input and writing the record gives back the input. */
  lemma CanonicalRoundTrip<U>(urls: UrlSyntax<U>, es: seq<Entry>)
    requires Canonical(urls, es)
    ensures FromReader(urls, Unlines(EntryLines(es)) + "\n").Success?
    ensures ToWriter(urls, FromReader(urls, Unlines(EntryLines(es)) + "\n").value)
            == Unlines(EntryLines(es)) + "\n"
  {
    ReadWrittenEntries(urls, es);
    StoreOutcome(urls, Default(), es);
    forall i | 0 <= i < |es|
      ensures !BadUrl(urls, es[i])
    {
      assert es[i] in es;
    }
    var gc := Store(urls, Default(), es).value;
    ReadCanonicalEntries(urls, es, gc);
    ToWriterLayout(urls, gc);
  }
}
