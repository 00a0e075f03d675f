/** The record a git credential helper exchanges with git: six optional attributes,
    the keys that name them on the wire, and the one error the format can raise. */
module Credential {
  import opened Wrappers

  /** The attribute names the format recognises, one per field of the record. */
  datatype Key = Url | Protocol | Host | Path | Username | Password

  /** The order in which the writer emits the fields: url first, so that the other
      attributes can refine it. */
  const KeyOrder: seq<Key> := [Url, Protocol, Host, Path, Username, Password]

  /** The name of a key as it appears on the wire, before the `=`. */
  function Name(k: Key): string
  {
    match k
    case Url => "url"
    case Protocol => "protocol"
    case Host => "host"
    case Path => "path"
    case Username => "username"
    case Password => "password"
  }

  /** Position of a key in `KeyOrder`. */
  function Rank(k: Key): nat
  {
    match k
    case Url => 0
    case Protocol => 1
    case Host => 2
    case Path => 3
    case Username => 4
    case Password => 5
  }

  /** The key a wire name denotes, if any; names are matched exactly (case-sensitive). */
  function KeyNamed(name: string): (k: Option<Key>)
    ensures k.Some? ==> Name(k.value) == name
    ensures k.None? ==> forall key: Key :: Name(key) != name
  {
    if name == "url" then Some(Url)
    else if name == "protocol" then Some(Protocol)
    else if name == "host" then Some(Host)
    else if name == "path" then Some(Path)
    else if name == "username" then Some(Username)
    else if name == "password" then Some(Password)
    else None
  }

  /** `KeyOrder` lists every key once, at the position its rank gives. */
  lemma KeyOrderRanks()
    ensures |KeyOrder| == 6
    ensures forall i | 0 <= i < |KeyOrder| :: Rank(KeyOrder[i]) == i
    ensures forall k: Key :: KeyOrder[Rank(k)] == k
  {
  }

  /** Every name maps back to its key, and no wire name holds a `=`, a newline or a
      carriage return. */
  lemma NameProperties(k: Key)
    ensures KeyNamed(Name(k)) == Some(k)
    ensures '=' !in Name(k) && '\n' !in Name(k) && '\r' !in Name(k)
    ensures Name(k) != ""
  {
  }

  /** What the record knows about URLs, which it treats as an abstract type `U`:
      `parse` plays `Url::parse` (None when the text is rejected) and `render` plays
      the URL's `Display`. Nothing is assumed about either. */
  datatype UrlSyntax<!U> = UrlSyntax(parse: string -> Option<U>, render: U -> string)

  /** The credential record; every field is optional and `None` means "not specified". */
  datatype GitCredential<U> = GitCredential(
    url: Option<U>,
    protocol: Option<string>,
    host: Option<string>,
    path: Option<string>,
    username: Option<string>,
    password: Option<string>)

  /** The record with every field unset. */
  function Default<U>(): (r: GitCredential<U>)
    ensures r.url == None
    ensures forall k: Key | k != Url :: Get(r, k) == None
  {
    GitCredential(None, None, None, None, None, None)
  }

  /** The one error of the format: a `url` value that the URL parser rejects, carried
      verbatim. */
  datatype Error = ParseError(value: string)

  /** The string-valued field a key other than `url` names. */
  function Get<U>(gc: GitCredential<U>, k: Key): Option<string>
    requires k != Url
  {
    match k
    case Protocol => gc.protocol
    case Host => gc.host
    case Path => gc.path
    case Username => gc.username
    case Password => gc.password
  }

  /** The record with the field named by `k` set to `v`; nothing else changes. */
  function Set<U>(gc: GitCredential<U>, k: Key, v: string): (r: GitCredential<U>)
    requires k != Url
    ensures Get(r, k) == Some(v)
    ensures r.url == gc.url
    ensures forall other: Key | other != Url && other != k :: Get(r, other) == Get(gc, other)
  {
    match k
    case Protocol => gc.(protocol := Some(v))
    case Host => gc.(host := Some(v))
    case Path => gc.(path := Some(v))
    case Username => gc.(username := Some(v))
    case Password => gc.(password := Some(v))
  }

  /** Two records agree when their url and every string field agree. */
  lemma Extensionality<U>(a: GitCredential<U>, b: GitCredential<U>)
    requires a.url == b.url
    requires forall k: Key | k != Url :: Get(a, k) == Get(b, k)
    ensures a == b
  {
    assert Get(a, Protocol) == Get(b, Protocol);
    assert Get(a, Host) == Get(b, Host);
    assert Get(a, Path) == Get(b, Path);
    assert Get(a, Username) == Get(b, Username);
    assert Get(a, Password) == Get(b, Password);
  }

  /** The text a field shows on the wire: the rendered URL for `url`, the stored
      string for the others; `None` when the field is unset. */
  function Shown<U>(urls: UrlSyntax<U>, gc: GitCredential<U>, k: Key): Option<string>
  {
    if k == Url then
      if gc.url.Some? then Some(urls.render(gc.url.value)) else None
    else Get(gc, k)
  }

  /** One `key=value` attribute: the key and the value text. */
  type Entry = (Key, string)

  /** Keys in strictly increasing rank. */
  ghost predicate Ascending(keys: seq<Key>)
  {
    forall i, j | 0 <= i < j < |keys| :: Rank(keys[i]) < Rank(keys[j])
  }

  /** The keys of a list of entries, in order. */
  function KeysOf(es: seq<Entry>): seq<Key>
  {
    seq(|es|, i requires 0 <= i < |es| => es[i].0)
  }

  /** Entries in strictly increasing key order, hence with no key repeated. */
  ghost predicate Ordered(es: seq<Entry>)
  {
    Ascending(KeysOf(es))
  }

  /** An ordered list, entry by entry: every entry ranks below each entry after it. */
  lemma OrderedRanks(es: seq<Entry>)
    ensures Ordered(es) <==> forall i, j | 0 <= i < j < |es| :: Rank(es[i].0) < Rank(es[j].0)
  {
    var keys := KeysOf(es);
    assert |keys| == |es| && forall i | 0 <= i < |es| :: keys[i] == es[i].0;
  }

  /** An entry ranked below every entry of an ordered list can head it. */
  lemma OrderedCons(e: Entry, es: seq<Entry>)
    ensures Ordered(es) && (forall x | x in es :: Rank(e.0) < Rank(x.0)) ==> Ordered([e] + es)
  {
    OrderedRanks(es);
    OrderedRanks([e] + es);
    if Ordered(es) && (forall x | x in es :: Rank(e.0) < Rank(x.0)) {
      forall i, j | 0 <= i < j < |[e] + es|
        ensures Rank(([e] + es)[i].0) < Rank(([e] + es)[j].0)
      {
        assert ([e] + es)[j] == es[j - 1];
        if i > 0 {
          assert ([e] + es)[i] == es[i - 1];
        } else {
          assert es[j - 1] in es;
        }
      }
    }
  }

  /** Two non-empty ordered entry lists with the same members start alike. */
  lemma OrderedHead(a: seq<Entry>, b: seq<Entry>)
    requires Ordered(a) && Ordered(b) && a != [] && b != []
    requires forall e :: e in a <==> e in b
    ensures a[0] == b[0]
  {
    OrderedRanks(a);
    OrderedRanks(b);
    assert a[0] in b && b[0] in a;
    var i :| 0 <= i < |b| && b[i] == a[0];
    var j :| 0 <= j < |a| && a[j] == b[0];
    assert i == 0;
  }

  /** Past an equal first entry, the rests of two ordered lists with the same members
      have the same members. */
  lemma OrderedTails(a: seq<Entry>, b: seq<Entry>)
    requires Ordered(a) && Ordered(b) && a != [] && b != [] && a[0] == b[0]
    requires forall e :: e in a <==> e in b
    ensures Ordered(a[1..]) && Ordered(b[1..])
    ensures forall e :: e in a[1..] <==> e in b[1..]
  {
    OrderedRanks(a);
    OrderedRanks(b);
    OrderedRanks(a[1..]);
    OrderedRanks(b[1..]);
    forall e | e in a[1..]
      ensures e in b[1..]
    {
      var k :| 1 <= k < |a| && a[k] == e;
      assert Rank(a[0].0) < Rank(a[k].0);
      assert e in a && e in b;
      var m :| 0 <= m < |b| && b[m] == e;
      assert m != 0 && b[1..][m - 1] == e;
    }
    forall e | e in b[1..]
      ensures e in a[1..]
    {
      var k :| 1 <= k < |b| && b[k] == e;
      assert Rank(b[0].0) < Rank(b[k].0);
      assert e in b && e in a;
      var m :| 0 <= m < |a| && a[m] == e;
      assert m != 0 && a[1..][m - 1] == e;
    }
  }

  /** Two ordered entry lists with the same members are the same list. */
  lemma {:induction false} OrderedUnique(a: seq<Entry>, b: seq<Entry>)
    requires Ordered(a) && Ordered(b)
    requires forall e :: e in a <==> e in b
    ensures a == b
  {
    assert a != [] ==> a[0] in b;
    assert b != [] ==> b[0] in a;
    if a != [] && b != [] {
      OrderedHead(a, b);
      OrderedTails(a, b);
      OrderedUnique(a[1..], b[1..]);
      assert a == [a[0]] + a[1..] && b == [b[0]] + b[1..];
    }
  }
}
