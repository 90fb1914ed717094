/** One published version of a module, built from a release object of the hosting API. */
module ModuleVersions {
  import opened Wrappers
  import opened Json

  /** Why a release object could not become a version: a key the constructor looks up is absent
      (Python `KeyError`), or a value has a type the model does not accept. */
  datatype PayloadError = MissingKey(key: string) | WrongType(key: string)

  /** A version as the constructor stores it. `createdAt` is the raw ISO-8601 text, or `None` for a
      JSON `null`, which the date parser turns into an invalid date; `prerelease` holds the
      truthiness of the payload's value, which is all the class ever asks of it. */
  datatype ModuleVersion = ModuleVersion(name: string, createdAt: Option<string>, prerelease: bool, htmlUrl: string)

  /** The keys the constructor reads, in the order it reads them. */
  const LookupOrder: seq<string> := ["name", "created_at", "prerelease", "html_url"]

  /** The checks the constructor makes, in the order it makes them; the first that fails is
      reported. The lookups and the date parser's argument type come first, as in the source;
      the model's own type checks on `name` and `html_url` come last. */
  const Checks: seq<PayloadError> := [
    MissingKey("name"), MissingKey("created_at"), WrongType("created_at"),
    MissingKey("prerelease"), MissingKey("html_url"), WrongType("name"), WrongType("html_url")
  ]

  const PrereleaseSuffix: string := " (prerelease)"

  /** The values accepted under each key: text or `null` for the date parser, text for the name
      and the URL, anything for the prerelease flag. */
  predicate Accepts(key: string, v: JsonValue)
  {
    if key == "created_at" then v.JString? || v.JNull?
    else if key == "name" || key == "html_url" then v.JString?
    else true
  }

  /** Whether a check fails on a payload. */
  predicate Fails(p: Payload, check: PayloadError)
  {
    match check
    case MissingKey(k) => k !in p
    case WrongType(k) => k in p && !Accepts(k, p[k])
  }

  /** A release object the constructor accepts. */
  predicate WellFormed(p: Payload)
  {
    && "name" in p && p["name"].JString?
    && "created_at" in p && (p["created_at"].JString? || p["created_at"].JNull?)
    && "prerelease" in p
    && "html_url" in p && p["html_url"].JString?
  }

  /** The JSON value a stored date text came from. */
  function DateValue(createdAt: Option<string>): JsonValue
  {
    match createdAt
    case Some(t) => JString(t)
    case None => JNull
  }

  /** `ModuleVersion.__init__`: the checks of `Checks` are made in turn and the first that fails
      is reported; when none fails the fields are copied from the payload. */
  function FromPayload(p: Payload): (r: Result<ModuleVersion, PayloadError>)
    ensures r.Success? <==> WellFormed(p)
    ensures r.Success? <==> forall i :: 0 <= i < |Checks| ==> !Fails(p, Checks[i])
    ensures r.Success? ==>
              && JString(r.value.name) == p["name"]
              && DateValue(r.value.createdAt) == p["created_at"]
              && r.value.prerelease == Truthy(p["prerelease"])
              && JString(r.value.htmlUrl) == p["html_url"]
    ensures r.Failure? ==>
              exists i :: 0 <= i < |Checks| && r.error == Checks[i] && Fails(p, Checks[i])
                          && forall j :: 0 <= j < i ==> !Fails(p, Checks[j])
    ensures r.Failure? ==> r.error.key in LookupOrder
  {
    assert Checks[0] == MissingKey("name") && Checks[1] == MissingKey("created_at");
    assert Checks[2] == WrongType("created_at") && Checks[3] == MissingKey("prerelease");
    assert Checks[4] == MissingKey("html_url") && Checks[5] == WrongType("name");
    assert Checks[6] == WrongType("html_url");
    if "name" !in p then Failure(MissingKey("name"))
    else if "created_at" !in p then Failure(MissingKey("created_at"))
    else if !Accepts("created_at", p["created_at"]) then Failure(WrongType("created_at"))
    else if "prerelease" !in p then Failure(MissingKey("prerelease"))
    else if "html_url" !in p then Failure(MissingKey("html_url"))
    else if !p["name"].JString? then Failure(WrongType("name"))
    else if !p["html_url"].JString? then Failure(WrongType("html_url"))
    else
      var createdAt := if p["created_at"].JString? then Some(p["created_at"].s) else None;
      Success(ModuleVersion(p["name"].s, createdAt, Truthy(p["prerelease"]), p["html_url"].s))
  }

  /** The release object a version is read back from: the inverse of `FromPayload`. */
  function ToPayload(v: ModuleVersion): (p: Payload)
    ensures WellFormed(p)
    ensures p.Keys == set k | k in LookupOrder
  {
    map["name" := JString(v.name), "created_at" := DateValue(v.createdAt),
        "prerelease" := JBool(v.prerelease), "html_url" := JString(v.htmlUrl)]
  }

  /** Reading a version back from the object it was written to gives the same version. */
  lemma PayloadRoundTrip(v: ModuleVersion)
    ensures FromPayload(ToPayload(v)) == Success(v)
  {
  }

  /** Keys other than the four the constructor reads do not affect the result. */
  lemma FromPayloadIgnoresOtherKeys(p: Payload, q: Payload)
    requires forall k | k in LookupOrder :: (k in p <==> k in q) && (k in p ==> p[k] == q[k])
    ensures FromPayload(p) == FromPayload(q)
  {
  }

  /** `ModuleVersion.display_name`: the name, marked when the version is a prerelease. */
  function DisplayName(v: ModuleVersion): (r: string)
    ensures v.name <= r
    ensures r != v.name <==> v.prerelease
    ensures v.prerelease ==> |r| == |v.name| + |PrereleaseSuffix| && r[|v.name|..] == PrereleaseSuffix
  {
    if v.prerelease then v.name + PrereleaseSuffix else v.name
  }

  predicate EndsWithPrereleaseSuffix(s: string)
  {
    |PrereleaseSuffix| <= |s| && s[|s| - |PrereleaseSuffix|..] == PrereleaseSuffix
  }

  /** Reads a display name back as a name and a prerelease flag. Every string is the display
      name of what it splits into. */
  function SplitDisplayName(s: string): (r: (string, bool))
    ensures DisplayName(ModuleVersion(r.0, None, r.1, "")) == s
    ensures r.1 <==> EndsWithPrereleaseSuffix(s)
  {
    if EndsWithPrereleaseSuffix(s) then (s[..|s| - |PrereleaseSuffix|], true) else (s, false)
  }

  /** A display name determines the version's name and flag, unless a non-prerelease name itself
      ends in the marker. */
  lemma DisplayNameRoundTrip(v: ModuleVersion)
    requires v.prerelease || !EndsWithPrereleaseSuffix(v.name)
    ensures SplitDisplayName(DisplayName(v)) == (v.name, v.prerelease)
  {
  }

  /** Two versions whose names do not end in the marker show the same display name only when
      they agree on name and prerelease flag. */
  lemma DisplayNameInjective(v: ModuleVersion, w: ModuleVersion)
    requires !EndsWithPrereleaseSuffix(v.name) && !EndsWithPrereleaseSuffix(w.name)
    requires DisplayName(v) == DisplayName(w)
    ensures v.name == w.name && v.prerelease == w.prerelease
  {
  }

  /** Without that condition the display name is ambiguous: a release named `n (prerelease)` and a
      prerelease named `n` are shown alike. */
  lemma DisplayNameCollision(n: string, createdAt: Option<string>, htmlUrl: string)
    ensures DisplayName(ModuleVersion(n + PrereleaseSuffix, createdAt, false, htmlUrl))
         == DisplayName(ModuleVersion(n, createdAt, true, htmlUrl))
  {
  }
}
