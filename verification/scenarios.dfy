/** The behaviour the library's documentation examples and unit tests pin down,
    stated on their concrete inputs. Inputs are written
    as their lines, `Unlines(lines)` being those lines each ended by a newline. The URL
    type stays abstract: where a case needs a URL, the parser or the renderer is only
    required to behave as the case expects on that one text. */
module Scenarios {
  import opened Wrappers
  import opened Text
  import opened Credential
  import opened Reader
  import opened Writer
  import opened RoundTrip

  const ExampleUrl: string := "https://example.com/myproject.git"

  /** The record of the documentation examples: a username and a password only. */
  function UserAndPassword<U>(): GitCredential<U>
  {
    Default().(username := Some("me"), password := Some("%sec&ret!"))
  }

  /** The record of the unit tests: every field set. */
  function FullRecord<U>(u: U): GitCredential<U>
  {
    GitCredential(Some(u), Some("https"), Some("example.com"), Some("myproject.git"), Some("me"), Some("%sec&ret!"))
  }

  /** The attributes of the unit tests, in the writer's order. */
  const FullEntries: seq<Entry> :=
    [(Url, ExampleUrl), (Protocol, "https"), (Host, "example.com"), (Path, "myproject.git"),
     (Username, "me"), (Password, "%sec&ret!")]

  /** The lines of the unit tests' text, in the writer's order. */
  const FullLines: seq<string> :=
    ["url=https://example.com/myproject.git", "protocol=https", "host=example.com",
     "path=myproject.git", "username=me", "password=%sec&ret!"]

  /** The same attributes in the order the reading unit test lists them: url last. */
  const ShuffledEntries: seq<Entry> :=
    [(Username, "me"), (Password, "%sec&ret!"), (Protocol, "https"), (Host, "example.com"),
     (Path, "myproject.git"), (Url, ExampleUrl)]

  const ShuffledLines: seq<string> :=
    ["username=me", "password=%sec&ret!", "protocol=https", "host=example.com",
     "path=myproject.git", "url=https://example.com/myproject.git"]

  /** Attribute lists whose lines agree one by one are written as the same lines. */
  lemma {:induction false} EntryLinesPointwise(es: seq<Entry>, ls: seq<string>)
    requires |es| == |ls|
    requires forall i | 0 <= i < |es| :: EntryLine(es[i]) == ls[i]
    ensures EntryLines(es) == ls
  {
    if es != [] {
      EntryLinesPointwise(es[1..], ls[1..]);
      assert ls == [ls[0]] + ls[1..];
    }
  }

  /** The url line of the unit tests. */
  lemma UrlLineWritten()
    ensures EntryLine((Url, ExampleUrl)) == "url=https://example.com/myproject.git"
  {
  }

  /** The other five lines of the unit tests. */
  lemma OtherLinesWritten()
    ensures EntryLine((Protocol, "https")) == "protocol=https"
    ensures EntryLine((Host, "example.com")) == "host=example.com"
    ensures EntryLine((Path, "myproject.git")) == "path=myproject.git"
    ensures EntryLine((Username, "me")) == "username=me"
    ensures EntryLine((Password, "%sec&ret!")) == "password=%sec&ret!"
  {
  }

  /** The unit tests' attributes are written as the unit tests' lines. */
  lemma FullEntriesWritten()
    ensures |FullEntries| == |FullLines| == 6
    ensures forall i | 0 <= i < 6 :: EntryLine(FullEntries[i]) == FullLines[i]
    ensures EntryLines(FullEntries) == FullLines
  {
    var es, ls := FullEntries, FullLines;
    UrlLineWritten();
    OtherLinesWritten();
    EntryLinesPointwise(es, ls);
  }

  /** A non-empty value without `=`, newlines or carriage returns is writable. */
  lemma PlainWritable(v: string)
    requires v != ""
    requires forall i | 0 <= i < |v| :: v[i] != '=' && v[i] != '\n' && v[i] != '\r'
    ensures Writable(v)
  {
  }

  /** The unit tests' attributes are in key order and have writable values. */
  lemma FullEntriesCanonical()
    ensures Ordered(FullEntries)
    ensures forall e | e in FullEntries :: Writable(e.1)
  {
    FullEntriesOrdered();
    FullValuesWritable();
  }

  /** The unit tests' attributes are listed in key order. */
  lemma FullEntriesOrdered()
    ensures Ordered(FullEntries)
  {
    forall i, j | 0 <= i < j < |FullEntries|
      ensures Rank(FullEntries[i].0) < Rank(FullEntries[j].0)
    {
      assert Rank(FullEntries[i].0) == i && Rank(FullEntries[j].0) == j;
    }
  }

  /** The example URL text can sit on a line. */
  lemma UrlWritable()
    ensures Writable(ExampleUrl)
  {
    PlainWritable(ExampleUrl);
  }

  /** Every value of the unit tests can sit on a line. */
  lemma FullValuesWritable()
    ensures forall e | e in FullEntries :: Writable(e.1)
  {
    UrlWritable();
    PlainWritable("https");
    PlainWritable("example.com");
    PlainWritable("myproject.git");
    PlainWritable("me");
    PlainWritable("%sec&ret!");
  }

  /** The shuffled attributes are written as the shuffled lines. */
  lemma ShuffledEntriesWritten()
    ensures EntryLines(ShuffledEntries) == ShuffledLines
    ensures forall e | e in ShuffledEntries :: Writable(e.1)
  {
    var es, ls := ShuffledEntries, ShuffledLines;
    FullEntriesWritten();
    assert es == [FullEntries[4], FullEntries[5], FullEntries[1], FullEntries[2], FullEntries[3], FullEntries[0]];
    assert ls == [FullLines[4], FullLines[5], FullLines[1], FullLines[2], FullLines[3], FullLines[0]];
    EntryLinesPointwise(es, ls);
    assert forall e | e in es :: e in FullEntries;
    FullEntriesCanonical();
  }

  /** The attributes the full record shows are those of the unit tests. */
  lemma FullRecordShows<U>(urls: UrlSyntax<U>, u: U)
    requires urls.render(u) == ExampleUrl
    ensures forall e: Entry :: e in FullEntries <==> Shown(urls, FullRecord(u), e.0) == Some(e.1)
  {
  }

  // ---------------------------------------------------------------------------
  // Writing.

  /** The empty record is written as the empty line alone. */
  lemma WriteDefault<U>(urls: UrlSyntax<U>)
    ensures ToWriter(urls, Default()) == "\n"
  {
  }

  /** The documentation example of writing. */
  lemma WriteUserAndPassword<U>(urls: UrlSyntax<U>)
    ensures ToWriter(urls, UserAndPassword()) == "username=me\npassword=%sec&ret!\n\n"
  {
  }

  /** The unit test of writing: all six lines in the fixed order, then the empty line. */
  lemma WriteFullRecord<U>(urls: UrlSyntax<U>, u: U)
    requires urls.render(u) == ExampleUrl
    ensures ToWriter(urls, FullRecord(u)) == Unlines(FullLines) + "\n"
  {
    var gc := FullRecord(u);
    FullEntriesWritten();
    FullEntriesCanonical();
    ToWriterLayout(urls, gc);
    FullRecordShows(urls, u);
    OrderedUnique(Entries(urls, gc), FullEntries);
  }

  // ---------------------------------------------------------------------------
  // Reading. Each text is read through the general lemmas about the reader.

  /** The attributes of the documentation example. */
  const DocEntries: seq<Entry> := [(Username, "me"), (Password, "%sec&ret!")]

  /** The documentation text is the written form of its two attributes. */
  lemma DocText()
    ensures Unlines(EntryLines(DocEntries)) + "\n" == "username=me\npassword=%sec&ret!\n\n"
    ensures forall e | e in DocEntries :: Writable(e.1)
  {
    var ls := ["username=me", "password=%sec&ret!"];
    OtherLinesWritten();
    EntryLinesPointwise(DocEntries, ls);
    FullValuesWritable();
    assert forall e | e in DocEntries :: e in FullEntries;
    DocUnlines();
  }

  /** The documentation text as two written lines and the empty line. */
  lemma DocUnlines()
    ensures Unlines(["username=me", "password=%sec&ret!"]) + "\n" == "username=me\npassword=%sec&ret!\n\n"
  {
    var ls := ["username=me", "password=%sec&ret!"];
    assert ls[1..] == ["password=%sec&ret!"];
    assert ls[1..][1..] == [];
    assert Unlines(ls) == "username=me\n" + ("password=%sec&ret!\n" + "");
  }

  /** Storing the documentation attributes gives the documented record. */
  lemma StoreDoc<U>(urls: UrlSyntax<U>)
    ensures Store(urls, Default(), DocEntries) == Success(UserAndPassword())
  {
    assert DocEntries[1..] == [(Password, "%sec&ret!")];
    assert DocEntries[1..][1..] == [];
  }

  /** The documentation example of reading. */
  lemma ReadUserAndPassword<U>(urls: UrlSyntax<U>)
    ensures FromReader(urls, "username=me\npassword=%sec&ret!\n\n") == Success(UserAndPassword())
  {
    DocText();
    ReadWrittenEntries(urls, DocEntries);
    StoreDoc(urls);
  }

  /** Storing the shuffled attributes sets every field of the full record. */
  lemma StoreShuffled<U>(urls: UrlSyntax<U>, u: U)
    requires urls.parse(ExampleUrl) == Some(u)
    ensures Store(urls, Default(), ShuffledEntries) == Success(FullRecord(u))
  {
    var es := ShuffledEntries;
    var g1 := Default().(username := Some("me"));
    var g2 := g1.(password := Some("%sec&ret!"));
    var g3 := g2.(protocol := Some("https"));
    var g4 := g3.(host := Some("example.com"));
    var g5 := g4.(path := Some("myproject.git"));
    assert Store(urls, g5, es[5..]) == Success(FullRecord(u)) by {
      assert es[5..][1..] == [];
    }
    assert Store(urls, g4, es[4..]) == Store(urls, g5, es[5..]) by {
      assert es[4..][1..] == es[5..];
    }
    assert Store(urls, g3, es[3..]) == Store(urls, g4, es[4..]) by {
      assert es[3..][1..] == es[4..];
    }
    assert Store(urls, g2, es[2..]) == Store(urls, g3, es[3..]) by {
      assert es[2..][1..] == es[3..];
    }
    assert Store(urls, g1, es[1..]) == Store(urls, g2, es[2..]) by {
      assert es[1..][1..] == es[2..];
    }
  }

  /** The unit test of reading: the attributes in another order, url last. */
  lemma ReadShuffledRecord<U>(urls: UrlSyntax<U>, u: U)
    requires urls.parse(ExampleUrl) == Some(u)
    ensures FromReader(urls, Unlines(ShuffledLines) + "\n") == Success(FullRecord(u))
  {
    ShuffledEntriesWritten();
    ReadWrittenEntries(urls, ShuffledEntries);
    StoreShuffled(urls, u);
  }

  /** The unit test that reads the writer's text and writes the record again: the
      text comes back, provided the URL renders as it was parsed. */
  lemma ReadAndWriteAgain<U>(urls: UrlSyntax<U>)
    requires urls.parse(ExampleUrl).Some?
    requires urls.render(urls.parse(ExampleUrl).value) == ExampleUrl
    ensures FromReader(urls, Unlines(FullLines) + "\n").Success?
    ensures ToWriter(urls, FromReader(urls, Unlines(FullLines) + "\n").value) == Unlines(FullLines) + "\n"
  {
    FullEntriesWritten();
    FullEntriesCanonical();
    assert forall e | e in FullEntries && e.0 == Url :: e.1 == ExampleUrl;
    CanonicalRoundTrip(urls, FullEntries);
  }
}
