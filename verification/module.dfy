/** A module known to the tool: a name, a repository URL and its versions. */
module ModuleRecords {
  import opened Wrappers
  import opened ModuleVersions

  /** `Module` as its constructor leaves it; `url` is the constructor's second argument. */
  datatype Module = Module(name: string, url: string, versions: seq<ModuleVersion>)

  const ReprPrefix: string := "Module(name="
  const UrlSeparator: string := ", url="
  const ReprSuffix: string := ")"

  /** `Module.__init__(name, version)`: the second argument becomes the URL, and the version
      list starts empty. */
  function NewModule(name: string, version: string): (m: Module)
    ensures m.name == name && m.url == version && m.versions == []
  {
    Module(name, version, [])
  }

  /** `Module.__repr__`: name and URL inside a fixed frame; the versions are not shown. */
  function Repr(m: Module): (r: string)
    ensures |r| == |ReprPrefix| + |m.name| + |UrlSeparator| + |m.url| + |ReprSuffix|
    ensures r[..|ReprPrefix|] == ReprPrefix && r[|r| - |ReprSuffix|..] == ReprSuffix
    ensures r[|ReprPrefix|..|ReprPrefix| + |m.name|] == m.name
    ensures r[|ReprPrefix| + |m.name|..|ReprPrefix| + |m.name| + |UrlSeparator|] == UrlSeparator
    ensures r[|r| - |ReprSuffix| - |m.url|..|r| - |ReprSuffix|] == m.url
  {
    ReprPrefix + m.name + UrlSeparator + m.url + ReprSuffix
  }

  /** The representation does not depend on the version list. */
  lemma ReprIgnoresVersions(m: Module, versions: seq<ModuleVersion>)
    ensures Repr(m.(versions := versions)) == Repr(m)
  {
  }

  /** The index of the first `c` in `s`, or `|s|` when there is none. */
  function FirstIndexOf(s: string, c: char): (i: nat)
    ensures i <= |s|
    ensures i < |s| ==> s[i] == c
    ensures forall j :: 0 <= j < i ==> s[j] != c
  {
    if s == [] then 0
    else if s[0] == c then 0
    else 1 + FirstIndexOf(s[1..], c)
  }

  /** Reads a representation back as the name and URL it shows, splitting at the first comma. */
  function ParseRepr(s: string): (r: Option<(string, string)>)
  {
    if |s| < |ReprPrefix| + |ReprSuffix| || s[..|ReprPrefix|] != ReprPrefix
       || s[|s| - |ReprSuffix|..] != ReprSuffix then
      None
    else
      var body := s[|ReprPrefix|..|s| - |ReprSuffix|];
      var i := FirstIndexOf(body, ',');
      if i + |UrlSeparator| <= |body| && body[i..i + |UrlSeparator|] == UrlSeparator then
        Some((body[..i], body[i + |UrlSeparator|..]))
      else
        None
  }

  /** A representation gives back the module's name and URL when the name holds no comma. */
  lemma ParseReprRoundTrip(m: Module)
    requires ',' !in m.name
    ensures ParseRepr(Repr(m)) == Some((m.name, m.url))
  {
    var s := Repr(m);
    var body := s[|ReprPrefix|..|s| - |ReprSuffix|];
    assert body == m.name + UrlSeparator + m.url;
    var i := FirstIndexOf(body, ',');
    assert body[|m.name|] == ',';
    assert forall j :: 0 <= j < |m.name| ==> body[j] == m.name[j];
    assert i == |m.name|;
    assert body[i..i + |UrlSeparator|] == UrlSeparator;
    assert body[..i] == m.name;
    assert body[i + |UrlSeparator|..] == m.url;
  }

  /** Whatever `ParseRepr` accepts is the representation of a fresh module with the name and URL
      it read, and that name holds no comma. */
  lemma ReprOfParsed(s: string)
    requires ParseRepr(s).Some?
    ensures ',' !in ParseRepr(s).value.0
    ensures Repr(NewModule(ParseRepr(s).value.0, ParseRepr(s).value.1)) == s
  {
    var pre, suf := |ReprPrefix|, |s| - |ReprSuffix|;
    var body := s[pre..suf];
    var i := FirstIndexOf(body, ',');
    assert ParseRepr(s) == Some((body[..i], body[i + |UrlSeparator|..]));
    assert s == s[..pre] + body + s[suf..];
    assert body == body[..i] + body[i..i + |UrlSeparator|] + body[i + |UrlSeparator|..];
  }

  /** Modules whose names hold no comma have equal representations only when name and URL agree. */
  lemma ReprInjective(a: Module, b: Module)
    requires ',' !in a.name && ',' !in b.name
    requires Repr(a) == Repr(b)
    ensures a.name == b.name && a.url == b.url
  {
    ParseReprRoundTrip(a);
    ParseReprRoundTrip(b);
  }

  /** With `, url=` in the name the representation is ambiguous: it cannot tell where the name ends. */
  lemma ReprCollision()
    ensures Repr(NewModule("a, url=b", "c")) == Repr(NewModule("a", "b, url=c"))
  {
  }
}
