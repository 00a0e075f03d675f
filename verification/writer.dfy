/** Writing a credential record in its line format (`GitCredential::to_writer`).

    The writer emits one `key=value` line per set field, in the fixed order url,
    protocol, host, path, username, password, and then one empty line, whether or not
    any field was written. */
module Writer {
  import opened Wrappers
  import opened Text
  import opened Credential

  /** One attribute line with its newline, or nothing when the field is unset. */
  function Field(key: string, value: Option<string>): string
  {
    if value.Some? then key + "=" + value.value + "\n" else ""
  }

  /** Text that is empty or ends with a newline: a whole number of lines. */
  predicate WholeLines(s: string)
  {
    s == "" || s[|s| - 1] == '\n'
  }

  /** Whole lines after whole lines are whole lines. */
  lemma WholeLinesAppend(a: string, b: string)
    requires WholeLines(a) && WholeLines(b)
    ensures WholeLines(a + b)
  {
    if b == "" {
      assert a + b == a;
    }
  }

  /** `GitCredential::to_writer`: the set fields as `key=value` lines in the fixed
      order, then one empty line. The output always ends with that empty line: it is
      a lone newline, or its last two characters are newlines. */
  function ToWriter<U>(urls: UrlSyntax<U>, gc: GitCredential<U>): (out: string)
    ensures |out| > 0 && out[|out| - 1] == '\n'
    ensures |out| == 1 || out[|out| - 2] == '\n'
  {
    // The url line comes first, so that the other fields can refine it.
    var url := Field("url", if gc.url.Some? then Some(urls.render(gc.url.value)) else None);
    var protocol := Field("protocol", gc.protocol);
    var host := Field("host", gc.host);
    var path := Field("path", gc.path);
    var username := Field("username", gc.username);
    var password := Field("password", gc.password);
    WholeLinesAppend(url, protocol);
    WholeLinesAppend(url + protocol, host);
    WholeLinesAppend(url + protocol + host, path);
    WholeLinesAppend(url + protocol + host + path, username);
    WholeLinesAppend(url + protocol + host + path + username, password);
    // One empty line at the end.
    url + protocol + host + path + username + password + "\n"
  }

  // ---------------------------------------------------------------------------
  // A reference description of writing: the list of set fields, as attributes in
  // key order, each written as one line.

  /** The line an attribute is written as, without its newline. */
  function EntryLine(e: Entry): string
  {
    Name(e.0) + "=" + e.1
  }

  /** The lines of a list of attributes, in order. */
  function EntryLines(es: seq<Entry>): seq<string>
  {
    if es == [] then [] else [EntryLine(es[0])] + EntryLines(es[1..])
  }

  /** The set fields among `keys`, as attributes, in the order of `keys`. */
  function EntriesOf<U>(urls: UrlSyntax<U>, gc: GitCredential<U>, keys: seq<Key>): (es: seq<Entry>)
    ensures forall e | e in es :: e.0 in keys && Shown(urls, gc, e.0) == Some(e.1)
    ensures forall k | k in keys && Shown(urls, gc, k).Some? :: (k, Shown(urls, gc, k).value) in es
    ensures Ascending(keys) ==> Ordered(es)
  {
    if keys == [] then []
    else
      var rest := EntriesOf(urls, gc, keys[1..]);
      assert forall k | k in keys[1..] :: k in keys;
      assert forall k | k in keys && k != keys[0] :: k in keys[1..];
      match Shown(urls, gc, keys[0])
      case Some(v) =>
        HeadBelowRest(keys, rest);
        OrderedCons((keys[0], v), rest);
        [(keys[0], v)] + rest
      case None =>
        HeadBelowRest(keys, rest);
        rest
  }

  /** In ascending keys, entries drawn from the later keys rank above the first key,
      and those later keys are themselves ascending. */
  lemma HeadBelowRest(keys: seq<Key>, rest: seq<Entry>)
    requires keys != []
    requires forall e | e in rest :: e.0 in keys[1..]
    ensures Ascending(keys) ==> Ascending(keys[1..])
    ensures Ascending(keys) ==> forall e | e in rest :: Rank(keys[0]) < Rank(e.0)
  {
    if Ascending(keys) {
      forall i, j | 0 <= i < j < |keys[1..]|
        ensures Rank(keys[1..][i]) < Rank(keys[1..][j])
      {
        assert keys[1..][i] == keys[i + 1] && keys[1..][j] == keys[j + 1];
      }
      forall e | e in rest
        ensures Rank(keys[0]) < Rank(e.0)
      {
        var m :| 0 <= m < |keys[1..]| && keys[1..][m] == e.0;
        assert keys[m + 1] == e.0;
      }
    }
  }

  /** The set fields of a record as attributes: every set field once, with the text it
      shows on the wire, in the fixed key order. */
  function Entries<U>(urls: UrlSyntax<U>, gc: GitCredential<U>): (es: seq<Entry>)
    ensures Ordered(es)
    ensures forall e: Entry :: e in es <==> Shown(urls, gc, e.0) == Some(e.1)
  {
    KeyOrderRanks();
    assert Ascending(KeyOrder);
    EntriesOf(urls, gc, KeyOrder)
  }

  /** The written lines for `keys` start with the line of the first key, if set. */
  lemma EntriesOfCons<U>(urls: UrlSyntax<U>, gc: GitCredential<U>, keys: seq<Key>)
    requires keys != []
    ensures Unlines(EntryLines(EntriesOf(urls, gc, keys)))
            == Field(Name(keys[0]), Shown(urls, gc, keys[0])) + Unlines(EntryLines(EntriesOf(urls, gc, keys[1..])))
  {
    var rest := EntriesOf(urls, gc, keys[1..]);
    match Shown(urls, gc, keys[0])
    case Some(v) =>
      var es := [(keys[0], v)] + rest;
      assert es[0] == (keys[0], v) && es[1..] == rest;
      assert EntryLines(es) == [EntryLine((keys[0], v))] + EntryLines(rest);
    case None =>
  }

  /** The field lines for `keys`, in that order. */
  function FieldsText<U>(urls: UrlSyntax<U>, gc: GitCredential<U>, keys: seq<Key>): string
  {
    if keys == [] then "" else Field(Name(keys[0]), Shown(urls, gc, keys[0])) + FieldsText(urls, gc, keys[1..])
  }

  /** The listed attributes are written as the field lines for `keys`. */
  lemma {:induction false} EntriesOfText<U>(urls: UrlSyntax<U>, gc: GitCredential<U>, keys: seq<Key>)
    ensures Unlines(EntryLines(EntriesOf(urls, gc, keys))) == FieldsText(urls, gc, keys)
  {
    if keys != [] {
      EntriesOfCons(urls, gc, keys);
      EntriesOfText(urls, gc, keys[1..]);
    }
  }

  /** `ToWriter` emits the field lines in key order, then the empty line. */
  lemma ToWriterFields<U>(urls: UrlSyntax<U>, gc: GitCredential<U>)
    ensures ToWriter(urls, gc) == FieldsText(urls, gc, KeyOrder) + "\n"
  {
    var f1 := Field("url", if gc.url.Some? then Some(urls.render(gc.url.value)) else None);
    var f2 := Field("protocol", gc.protocol);
    var f3 := Field("host", gc.host);
    var f4 := Field("path", gc.path);
    var f5 := Field("username", gc.username);
    var f6 := Field("password", gc.password);
    assert FieldsText(urls, gc, []) == "";
    assert FieldsText(urls, gc, [Password]) == f6 by {
      assert [Password][1..] == [];
    }
    assert FieldsText(urls, gc, [Username, Password]) == f5 + f6 by {
      assert [Username, Password][1..] == [Password];
    }
    assert FieldsText(urls, gc, [Path, Username, Password]) == f4 + (f5 + f6) by {
      assert [Path, Username, Password][1..] == [Username, Password];
    }
    assert FieldsText(urls, gc, [Host, Path, Username, Password]) == f3 + (f4 + (f5 + f6)) by {
      assert [Host, Path, Username, Password][1..] == [Path, Username, Password];
    }
    assert FieldsText(urls, gc, [Protocol, Host, Path, Username, Password]) == f2 + (f3 + (f4 + (f5 + f6))) by {
      assert [Protocol, Host, Path, Username, Password][1..] == [Host, Path, Username, Password];
    }
    assert FieldsText(urls, gc, KeyOrder) == f1 + (f2 + (f3 + (f4 + (f5 + f6)))) by {
      assert KeyOrder[1..] == [Protocol, Host, Path, Username, Password];
    }
    // Regroup the concatenation one group at a time, each piece taken as a whole.
    ConcatAssoc(f1, f2, f3 + (f4 + (f5 + f6)));
    ConcatAssoc(f1 + f2, f3, f4 + (f5 + f6));
    ConcatAssoc(f1 + f2 + f3, f4, f5 + f6);
    ConcatAssoc(f1 + f2 + f3 + f4, f5, f6);
  }

  /** Regrouping a concatenation, stated on arbitrary strings so that the solver applies
      it without unfolding the field lines it is used on. */
  lemma ConcatAssoc(a: string, b: string, c: string)
    ensures a + (b + c) == a + b + c
  {
  }

  /** The writer's output is the attribute list of the record, one `key=value` line
      per set field in the fixed key order, followed by one empty line. */
  lemma ToWriterLayout<U>(urls: UrlSyntax<U>, gc: GitCredential<U>)
    ensures ToWriter(urls, gc) == Unlines(EntryLines(Entries(urls, gc))) + "\n"
  {
    ToWriterFields(urls, gc);
    EntriesOfText(urls, gc, KeyOrder);
  }
}
