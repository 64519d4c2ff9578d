/** Image references (internal/registry/reference.go): parsing, printing, and when printing loses nothing. */
module References {
  import opened Text

  const DEFAULT_REGISTRY := "registry-1.docker.io"

  datatype Reference = Reference(registry: string, repository: string, tag: string, digest: string) {
    /** Reference.String. */
    function Show(): string {
      var out := registry + "/" + repository;
      if digest != "" then out + "@" + digest
      else if tag != "" then out + ":" + tag
      else out
    }

    /** The reference segment of a manifest URL. */
    function ManifestName(): string {
      if digest != "" then digest else if tag != "" then tag else "latest"
    }

    /** Printing a digest leaves the tag out. */
    function Pinned(): Reference {
      if digest != "" then this.(tag := "") else this
    }
  }

  predicate SupportedDigest(d: string) {
    HasPrefix(d, "sha256:") || HasPrefix(d, "sha512:")
  }

  predicate LooksLikeHost(first: string) {
    '.' in first || ':' in first || first == "localhost"
  }

  // ----- The three parts a reference is peeled of ------------------------------------------

  /** The part before the first `@` and the digest after it; none for an unsupported digest. */
  function PeelDigest(s: string): Option<(string, string)> {
    var i := Index(s, '@');
    if i < 0 then Some((s, ""))
    else if SupportedDigest(s[i + 1..]) then Some((s[..i], s[i + 1..]))
    else None
  }

  function PeelRegistry(s: string): (string, string) {
    var i := Index(s, '/');
    if i >= 0 && LooksLikeHost(s[..i]) then (s[..i], s[i + 1..]) else (DEFAULT_REGISTRY, s)
  }

  function PeelTag(s: string): (string, string) {
    var i := LastIndex(s, ':');
    if i >= 0 && '/' !in s[i + 1..] then (s[..i], s[i + 1..]) else (s, "")
  }

  function InNamespace(registry: string, repo: string): string {
    if registry == DEFAULT_REGISTRY && '/' !in repo then "library/" + repo else repo
  }

  function ReferenceOf(s: string): Option<Reference> {
    if s == "" then None
    else
      match PeelDigest(s)
      case None => None
      case Some((named, digest)) =>
        var (registry, path) := PeelRegistry(named);
        var (repo, tag) := PeelTag(path);
        if repo == "" then None
        else Some(Reference(registry, InNamespace(registry, repo),
                            if tag == "" && digest == "" then "latest" else tag, digest))
  }

  /** The registry is peeled off only when the first segment looks like a host. */
  method TakeRegistry(named: string) returns (registry: string, s: string)
    ensures (registry, s) == PeelRegistry(named)
  {
    registry, s := "", named;
    var i := Index(s, '/');
    if i >= 0 {
      var first := s[..i];
      if LooksLikeHost(first) {
        registry := first;
        s := s[i + 1..];
      }
    }
    if registry == "" {
      registry := DEFAULT_REGISTRY;
    }
  }

  /** The colon must not belong to a host and port that was not peeled off. */
  method TakeTag(path: string) returns (s: string, tag: string)
    ensures (s, tag) == PeelTag(path)
  {
    s, tag := path, "";
    var i := LastIndex(s, ':');
    if i >= 0 {
      var rest := s[i + 1..];
      if '/' !in rest {
        tag := rest;
        s := s[..i];
      }
    }
  }

  method ParseReference(text: string) returns (r: Option<Reference>)
    ensures r == ReferenceOf(text)
  {
    hide Index, SupportedDigest, PeelRegistry, PeelTag;
    var s := text;
    if s == "" {
      return None;
    }
    var digest := "";
    var i := Index(s, '@');
    if i >= 0 {
      digest := s[i + 1..];
      s := s[..i];
      if !SupportedDigest(digest) {
        return None;
      }
    }
    var registry;
    registry, s := TakeRegistry(s);
    var tag;
    s, tag := TakeTag(s);
    var repo := s;
    if repo == "" {
      return None;
    }
    if registry == DEFAULT_REGISTRY && '/' !in repo {
      repo := "library/" + repo;
    }
    if tag == "" && digest == "" {
      tag := "latest";
    }
    return Some(Reference(registry, repo, tag, digest));
  }

  // ----- What parsing yields -----------------------------------------------------------------

  predicate Free(s: string, c: char) { c !in s }

  /** The references that parsing yields. */
  predicate Canonical(r: Reference) {
    && LooksLikeHost(r.registry) && Free(r.registry, '/') && Free(r.registry, '@')
    && r.repository != "" && Free(r.repository, '@')
    && (r.registry == DEFAULT_REGISTRY ==> '/' in r.repository)
    && Free(r.tag, ':') && Free(r.tag, '/') && Free(r.tag, '@')
    && (r.digest == "" ==> r.tag != "")
    && (r.digest != "" ==> SupportedDigest(r.digest))
  }

  lemma PartOf(s: string, i: nat, j: nat, c: char)
    requires i <= j <= |s| && c !in s
    ensures c !in s[i..j]
  {}

  lemma DefaultRegistryIsHost()
    ensures LooksLikeHost(DEFAULT_REGISTRY) && Free(DEFAULT_REGISTRY, '/') && Free(DEFAULT_REGISTRY, '@')
  {
    assert DEFAULT_REGISTRY[10] == '.';
  }

  lemma LatestIsTag()
    ensures Free("latest", ':') && Free("latest", '/') && Free("latest", '@')
  {}

  lemma LibraryIsPath(repo: string)
    requires Free(repo, '@')
    ensures Free("library/" + repo, '@') && '/' in "library/" + repo
  {
    var lib := "library/";
    assert Free(lib, '@') && (lib + repo)[7] == '/';
    assert forall c | c in lib + repo :: c in lib || c in repo;
  }

  lemma PeeledTag(path: string)
    requires Free(path, '@')
    ensures var (repo, tag) := PeelTag(path);
            Free(repo, '@') && Free(tag, ':') && Free(tag, '/') && Free(tag, '@')
  {
    var i := LastIndex(path, ':');
    if i >= 0 {
      PartOf(path, 0, i, '@');
      PartOf(path, i + 1, |path|, '@');
    }
  }

  lemma PeeledRegistry(named: string)
    requires Free(named, '@')
    ensures var (registry, path) := PeelRegistry(named);
            LooksLikeHost(registry) && Free(registry, '/') && Free(registry, '@') && Free(path, '@')
  {
    DefaultRegistryIsHost();
    var i := Index(named, '/');
    if i >= 0 {
      PartOf(named, 0, i, '@');
      PartOf(named, i + 1, |named|, '@');
    }
  }

  lemma ParsedIsCanonical(s: string)
    ensures ReferenceOf(s).Some? ==> Canonical(ReferenceOf(s).value)
  {
    hide LooksLikeHost, SupportedDigest, PeelRegistry, PeelTag;
    if ReferenceOf(s).None? {
      return;
    }
    var i := Index(s, '@');
    var (named, digest) := PeelDigest(s).value;
    assert Free(named, '@');
    assert digest != "" ==> SupportedDigest(digest);
    PeeledRegistry(named);
    var (registry, path) := PeelRegistry(named);
    PeeledTag(path);
    var (repo, tag) := PeelTag(path);
    LibraryIsPath(repo);
    LatestIsTag();
  }

  // ----- Printing and parsing ----------------------------------------------------------------

  /** The repository would lose a piece after a colon that nothing separates from the end. */
  predicate TagLike(repository: string) {
    var i := LastIndex(repository, ':');
    i >= 0 && '/' !in repository[i + 1..]
  }

  lemma DigestPeeledBack(named: string, digest: string)
    requires Free(named, '@') && SupportedDigest(digest)
    ensures PeelDigest(named + "@" + digest) == Some((named, digest))
  {
    var s := named + ['@'] + digest;
    assert named + "@" + digest == s;
    IndexAfter(named, '@', digest);
    assert s[..|named|] == named && s[|named| + 1..] == digest;
  }

  lemma NoDigestToPeel(s: string)
    requires Free(s, '@')
    ensures PeelDigest(s) == Some((s, ""))
  {}

  lemma RegistryPeeledBack(registry: string, path: string)
    requires LooksLikeHost(registry) && Free(registry, '/')
    ensures PeelRegistry(registry + "/" + path) == (registry, path)
  {
    hide LooksLikeHost;
    var s := registry + ['/'] + path;
    assert registry + "/" + path == s;
    IndexAfter(registry, '/', path);
    assert s[..|registry|] == registry && s[|registry| + 1..] == path;
  }

  lemma TagPeeledBack(repo: string, tag: string)
    requires Free(tag, ':') && Free(tag, '/')
    ensures PeelTag(repo + ":" + tag) == (repo, tag)
  {
    var s := repo + [':'] + tag;
    assert repo + ":" + tag == s;
    LastIndexBefore(repo, ':', tag);
    assert s[..|repo|] == repo && s[|repo| + 1..] == tag;
  }

  lemma FreeTogether(a: string, b: string, c: char)
    requires Free(a, c) && Free(b, c)
    ensures Free(a + b, c)
  {}

  lemma SeparatorsFree()
    ensures Free("/", '@') && Free(":", '@')
  {}

  lemma NamespaceKept(r: Reference)
    requires Canonical(r)
    ensures InNamespace(r.registry, r.repository) == r.repository
  {}

  /** Parsing what was printed gives the reference back, without the tag that a digest overrides, exactly when there
      is no digest or the repository does not itself end like a tag. */
  lemma ReparseIff(r: Reference)
    requires Canonical(r)
    ensures ReferenceOf(r.Show()) == Some(r.Pinned()) <==> r.digest == "" || !TagLike(r.repository)
  {
    hide LooksLikeHost, SupportedDigest, PeelDigest, PeelRegistry, Free;
    SeparatorsFree();
    var named := r.registry + "/" + r.repository;
    FreeTogether(r.registry, "/", '@');
    FreeTogether(r.registry + "/", r.repository, '@');
    if r.digest != "" {
      DigestPeeledBack(named, r.digest);
      RegistryPeeledBack(r.registry, r.repository);
      assert r.Show() == named + "@" + r.digest != "";
    } else {
      var tagged := named + ":" + r.tag;
      assert tagged == r.registry + "/" + (r.repository + ":" + r.tag) != "";
      FreeTogether(named, ":", '@');
      FreeTogether(named + ":", r.tag, '@');
      NoDigestToPeel(tagged);
      RegistryPeeledBack(r.registry, r.repository + ":" + r.tag);
      hide PeelTag;
      TagPeeledBack(r.repository, r.tag);
    }
  }

  function Tagged(repo: string, tag: string): string {
    if tag == "" then repo else repo + ":" + tag
  }

  /** The whole grammar, `REGISTRY/REPO[:TAG][@DIGEST]`. */
  function Spelled(r: Reference): string {
    var named := r.registry + "/" + Tagged(r.repository, r.tag);
    if r.digest == "" then named else named + "@" + r.digest
  }

  lemma TaggedFree(repo: string, tag: string)
    requires Free(repo, '@') && Free(tag, '@')
    ensures Free(Tagged(repo, tag), '@')
  {}

  lemma TaggedPeels(repo: string, tag: string)
    requires Free(tag, ':') && Free(tag, '/') && (tag == "" ==> !TagLike(repo))
    ensures PeelTag(Tagged(repo, tag)) == (repo, tag)
  {
    if tag != "" {
      hide PeelTag;
      TagPeeledBack(repo, tag);
    }
  }

  /** Parsing inverts the grammar: all four parts come back, a tag next to a digest included. */
  lemma SpelledParsesBack(r: Reference)
    requires Canonical(r) && (r.tag == "" ==> !TagLike(r.repository))
    ensures ReferenceOf(Spelled(r)) == Some(r)
  {
    hide LooksLikeHost, SupportedDigest, PeelDigest, PeelRegistry, Free, PeelTag, TagLike, Tagged, InNamespace;
    SeparatorsFree();
    NamespaceKept(r);
    var path := Tagged(r.repository, r.tag);
    var named := r.registry + "/" + path;
    TaggedFree(r.repository, r.tag);
    TaggedPeels(r.repository, r.tag);
    FreeTogether(r.registry, "/", '@');
    FreeTogether(r.registry + "/", path, '@');
    RegistryPeeledBack(r.registry, path);
    if r.digest == "" {
      NoDigestToPeel(named);
    } else {
      DigestPeeledBack(named, r.digest);
    }
  }

  /** A bare name means the latest tag in the library namespace of the default registry. */
  lemma BareName(name: string)
    requires name != "" && Free(name, '/') && Free(name, ':') && Free(name, '@')
    ensures ReferenceOf(name) == Some(Reference("registry-1.docker.io", "library/" + name, "latest", ""))
  {
    NoDigestToPeel(name);
    assert PeelRegistry(name) == (DEFAULT_REGISTRY, name);
    assert PeelTag(name) == (name, "");
  }

  /** For every text that parses: printing and parsing again is the identity up to the overridden tag, and keeps the
      registry, the repository and the manifest name, exactly under that condition. */
  lemma RoundTripIff(s: string)
    ensures ReferenceOf(s).Some? ==>
            var r := ReferenceOf(s).value;
            && (ReferenceOf(r.Show()) == Some(r.Pinned()) <==> r.digest == "" || !TagLike(r.repository))
            && r.Pinned().registry == r.registry && r.Pinned().repository == r.repository
            && r.Pinned().ManifestName() == r.ManifestName()
  {
    hide ReferenceOf, Reference.Show, TagLike, Canonical;
    ParsedIsCanonical(s);
    if ReferenceOf(s).Some? {
      ReparseIff(ReferenceOf(s).value);
    }
  }

  /** The text of a reference identifies it, among those that parsing yields and printing keeps. */
  lemma ShowInjective(a: Reference, b: Reference)
    requires Canonical(a) && Canonical(b) && a.Show() == b.Show()
    requires a.digest == "" || !TagLike(a.repository)
    requires b.digest == "" || !TagLike(b.repository)
    ensures a.Pinned() == b.Pinned()
  {
    hide ReferenceOf, Reference.Show, TagLike, Canonical;
    ReparseIff(a);
    ReparseIff(b);
  }

  /** The first segment is the registry if it holds a dot or a colon or is `localhost`, and part of the repository
      otherwise. */
  lemma FirstSegmentDecides(first: string, rest: string)
    requires Free(first, '/') && Free(first, '@') && rest != "" && Free(rest, '@') && Free(rest, ':')
    ensures ReferenceOf(first + "/" + rest) ==
            if '.' in first || ':' in first || first == "localhost" then
              Some(Reference(first,
                             if first == "registry-1.docker.io" && Free(rest, '/') then "library/" + rest else rest,
                             "latest", ""))
            else Some(Reference("registry-1.docker.io", first + "/" + rest, "latest", ""))
  {
    hide Index, LastIndex, PeelDigest, PeelTag;
    var s := first + ['/'] + rest;
    assert first + "/" + rest == s && '/' in s;
    IndexAfter(first, '/', rest);
    assert s[..|first|] == first && s[|first| + 1..] == rest;
    NoDigestToPeel(s);
    NoTagToPeel(rest);
    if !LooksLikeHost(first) {
      NoTagToPeel(s);
    }
  }

  lemma NoTagToPeel(path: string)
    requires Free(path, ':')
    ensures PeelTag(path) == (path, "")
  {}

  /** Behind the at sign only digests by SHA-256 and SHA-512 are accepted; with one no tag is filled in. */
  lemma DigestDecides(name: string, digest: string)
    requires name != "" && Free(name, '/') && Free(name, ':') && Free(name, '@')
    ensures ReferenceOf(name + "@" + digest) ==
            if HasPrefix(digest, "sha256:") || HasPrefix(digest, "sha512:")
            then Some(Reference("registry-1.docker.io", "library/" + name, "", digest)) else None
  {
    hide LastIndex, PeelTag, HasPrefix;
    var s := name + ['@'] + digest;
    assert name + "@" + digest == s;
    IndexAfter(name, '@', digest);
    assert s[..|name|] == name && s[|name| + 1..] == digest;
    assert PeelRegistry(name) == (DEFAULT_REGISTRY, name);
    NoTagToPeel(name);
    PrefixChars(digest, "sha256:");
    PrefixChars(digest, "sha512:");
  }

  /** Without tag and digest the manifest is that of the latest tag; a digest overrides a tag. */
  lemma ManifestNames(r: Reference, tag: string, digest: string)
    requires tag != "" && digest != ""
    ensures r.(tag := "", digest := "").ManifestName() == "latest" && r.(tag := tag, digest := "").ManifestName() == tag
    ensures r.(digest := digest).ManifestName() == digest
  {}
}
