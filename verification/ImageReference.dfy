/** Image references: registry, repository and tag out of what a user writes. */
module ImageReference {
  import opened Wrappers
  import Text

  datatype Query = Query(registry: string, repository: string, tag: string)

  const OFFICIAL: string := "index" + ".docker" + ".io"

  predicate IsLower(c: char) {
    'a' <= c <= 'z'
  }

  predicate IsUpper(c: char) {
    'A' <= c <= 'Z'
  }

  predicate IsNumber(c: char) {
    '0' <= c <= '9'
  }

  /** ([\-\.]{1}[a-z0-9]+)* */
  predicate Labels(s: string) {
    s == [] ||
    ((s[0] == '-' || s[0] == '.') &&
     exists k | 2 <= k <= |s| :: (forall i | 1 <= i < k :: IsLower(s[i]) || IsNumber(s[i])) && Labels(s[k..]))
  }

  predicate HostPart(s: string) {
    s != [] && forall c | c in s :: IsLower(c) || IsUpper(c) || IsNumber(c) || c == '-'
  }

  predicate TopLevel(s: string) {
    3 <= |s| <= 7 && s[0] == '.' && forall i | 1 <= i < |s| :: IsLower(s[i]) || IsUpper(s[i])
  }

  /** The domain pattern: no dash first, a host part, labels, and a top level of two to six letters. */
  predicate DomainShaped(s: string) {
    s != [] && s[0] != '-' &&
    exists i, j | 0 <= i <= j <= |s| :: HostPart(s[..i]) && Labels(s[i..j]) && TopLevel(s[j..])
  }

  predicate HasDomain(s: string) {
    '/' in s && DomainShaped(s[..Text.IndexOf(s, '/')])
  }

  /** Position of the last c, or the length. */
  function LastIndexOf(s: string, c: char): (n: nat)
    ensures n <= |s|
    ensures n < |s| ==> s[n] == c && c !in s[n + 1..]
    ensures n == |s| <==> c !in s
  {
    if s == [] then 0
    else if s[|s| - 1] == c then |s| - 1
    else
      var n := LastIndexOf(s[..|s| - 1], c);
      assert s == s[..|s| - 1] + [s[|s| - 1]];
      if n == |s| - 1 then |s|
      else
        assert s[n + 1..] == s[..|s| - 1][n + 1..] + [s[|s| - 1]];
        n
  }

  function Resolve(image: string): Option<Query> {
    if image == [] then None
    else
      var plain := '/' !in image;
      var known := !plain && HasDomain(image);
      var registry := if known then image[..Text.IndexOf(image, '/')] else OFFICIAL;
      var name := if known then image[Text.IndexOf(image, '/') + 1..] else image;
      var prefix := if plain then "library/" else "";
      Some(Named(registry, prefix, name))
  }

  /** The name is cut at its last colon. */
  function Named(registry: string, prefix: string, name: string): Query {
    var colon := LastIndexOf(name, ':');
    if colon < |name| then Query(registry, prefix + name[..colon], name[colon + 1..])
    else Query(registry, prefix + name, "latest")
  }

  function Print(q: Query): string {
    q.registry + "/" + q.repository + ":" + q.tag
  }

  lemma {:induction false} LabelsHaveNoSlash(s: string)
    requires Labels(s)
    ensures '/' !in s
    decreases |s|
  {
    if s != [] {
      var k :| 2 <= k <= |s| && (forall i | 1 <= i < k :: IsLower(s[i]) || IsNumber(s[i])) && Labels(s[k..]);
      LabelsHaveNoSlash(s[k..]);
      forall c | c in s ensures c != '/' {
        var i :| 0 <= i < |s| && s[i] == c;
        if i >= k {
          assert s[k..][i - k] == c;
        }
      }
    }
  }

  lemma DomainHasNoSlash(s: string)
    requires DomainShaped(s)
    ensures '/' !in s
  {
    var i, j :| 0 <= i <= j <= |s| && HostPart(s[..i]) && Labels(s[i..j]) && TopLevel(s[j..]);
    LabelsHaveNoSlash(s[i..j]);
    TopLevelHasNoSlash(s[j..]);
    InParts(s, i, j);
  }

  lemma TopLevelHasNoSlash(s: string)
    requires TopLevel(s)
    ensures '/' !in s
  {
  }

  lemma InParts(s: string, i: nat, j: nat)
    requires i <= j <= |s|
    ensures forall c | c in s :: c in s[..i] || c in s[i..j] || c in s[j..]
  {
    assert s == s[..i] + s[i..j] + s[j..];
  }

  lemma OfficialIsDomain()
    ensures DomainShaped(OFFICIAL)
  {
    OneLabel(".docker");
    InThreeParts("index", ".docker", ".io");
  }

  lemma OneLabel(s: string)
    requires |s| >= 2 && s[0] == '.' && forall i | 1 <= i < |s| :: IsLower(s[i])
    ensures Labels(s)
  {
    assert s[|s|..] == [] && Labels([]);
  }

  lemma InThreeParts(host: string, labels: string, top: string)
    requires HostPart(host) && host[0] != '-' && Labels(labels) && TopLevel(top)
    ensures DomainShaped(host + labels + top)
  {
    var s, i, j := host + labels + top, |host|, |host| + |labels|;
    assert s[..i] == host && s[i..j] == labels && s[j..] == top;
  }

  /** What resolving yields: a domain-shaped registry and a tag without a colon. */
  lemma ResolvedIsNormal(image: string)
    requires image != []
    ensures var q := Resolve(image).value;
            DomainShaped(q.registry) && ':' !in q.tag
  {
    OfficialIsDomain();
  }

  lemma {:induction false} LastSplit(a: string, c: char, b: string)
    requires c !in b
    ensures LastIndexOf(a + [c] + b, c) == |a|
    decreases |b|
  {
    var s := a + [c] + b;
    if b == [] {
      assert s == a + [c];
    } else {
      var shorter := b[..|b| - 1];
      assert s[..|s| - 1] == a + [c] + shorter;
      assert s[|s| - 1] == b[|b| - 1];
      LastSplit(a, c, shorter);
    }
  }

  lemma KnownRegistry(registry: string, name: string)
    requires DomainShaped(registry)
    ensures Resolve(registry + "/" + name) == Some(Named(registry, "", name))
  {
    var image := registry + ['/'] + name;
    DomainHasNoSlash(registry);
    Text.IndexOfSplit(registry, '/', name);
    assert image[..|registry|] == registry && image[|registry|] == '/' && image[|registry| + 1..] == name;
    assert image == registry + "/" + name;
  }

  lemma NamedBack(q: Query)
    requires ':' !in q.tag
    ensures Named(q.registry, "", q.repository + ":" + q.tag) == q
  {
    var name := q.repository + ":" + q.tag;
    LastSplit(q.repository, ':', q.tag);
    assert name == q.repository + [':'] + q.tag;
    assert name[..|q.repository|] == q.repository && name[|q.repository| + 1..] == q.tag;
    assert "" + q.repository == q.repository;
  }

  /** Printing a triple and resolving it gives the triple back iff it is of the resolved form. */
  lemma RoundTripExactly(q: Query)
    ensures Resolve(Print(q)) == Some(q) <==> DomainShaped(q.registry) && ':' !in q.tag
  {
    if DomainShaped(q.registry) && ':' !in q.tag {
      ResolvePrinted(q);
    } else {
      ResolvedIsNormal(Print(q));
    }
  }

  lemma ResolvePrinted(q: Query)
    requires DomainShaped(q.registry) && ':' !in q.tag
    ensures Resolve(Print(q)) == Some(q)
  {
    KnownRegistry(q.registry, q.repository + ":" + q.tag);
    NamedBack(q);
    PrintedAtSlash(q);
  }

  lemma PrintedAtSlash(q: Query)
    ensures Print(q) == q.registry + "/" + (q.repository + ":" + q.tag)
  {
  }

  /** Resolving is idempotent: a resolved reference, printed and resolved again, stays what it is. */
  lemma ResolveIdempotent(image: string)
    requires image != []
    ensures Resolve(Print(Resolve(image).value)) == Resolve(image)
  {
    ResolvedIsNormal(image);
    RoundTripExactly(Resolve(image).value);
  }

  // ---------------------------------------------------------------------------------------
  // What users type
  // ---------------------------------------------------------------------------------------

  /** What stands before a tag is resolved like what stands alone. */
  lemma NamedWithoutColon(registry: string, prefix: string, name: string, tag: string)
    requires ':' !in name && ':' !in tag
    ensures Named(registry, prefix, name) == Query(registry, prefix + name, "latest")
    ensures Named(registry, prefix, name + [':'] + tag) == Query(registry, prefix + name, tag)
  {
    LastSplit(name, ':', tag);
    Text.Cut(name, ':', tag);
  }

  lemma OfficialText()
    ensures OFFICIAL == "index.docker.io"
  {
  }

  lemma WithoutSlash(image: string)
    requires image != "" && '/' !in image
    ensures Resolve(image) == Some(Named(OFFICIAL, "library/", image))
  {
  }

  lemma WithoutDomain(first: string, rest: string)
    requires '/' !in first && !DomainShaped(first)
    ensures Resolve(first + ['/'] + rest) == Some(Named(OFFICIAL, "", first + ['/'] + rest))
  {
    Text.IndexOfSplit(first, '/', rest);
    Text.Cut(first, '/', rest);
  }

  /** A plain name is an official image. */
  lemma PlainNameResolves(name: string, tag: string)
    requires name != "" && ':' !in name && '/' !in name && ':' !in tag && '/' !in tag
    ensures Resolve(name) == Some(Query("index.docker.io", "library/" + name, "latest"))
    ensures Resolve(name + [':'] + tag) == Some(Query("index.docker.io", "library/" + name, tag))
  {
    OfficialText();
    NamedWithoutColon(OFFICIAL, "library/", name, tag);
    WithoutSlash(name);
    WithoutSlash(name + [':'] + tag);
  }

  /** A name of several parts that begins with no domain is looked for at the same place, as it is. */
  lemma PathResolves(first: string, rest: string, tag: string)
    requires '/' !in first && !DomainShaped(first) && ':' !in first && ':' !in rest && ':' !in tag
    ensures Resolve(first + ['/'] + rest) == Some(Query("index.docker.io", first + ['/'] + rest, "latest"))
    ensures Resolve(first + ['/'] + rest + [':'] + tag) == Some(Query("index.docker.io", first + ['/'] + rest, tag))
  {
    OfficialText();
    WithoutDomain(first, rest);
    TaggedPath(first, rest, tag);
    NamedBare(OFFICIAL, first + ['/'] + rest, tag);
  }

  lemma TaggedPath(first: string, rest: string, tag: string)
    requires '/' !in first && !DomainShaped(first)
    ensures Resolve(first + ['/'] + rest + [':'] + tag) == Some(Named(OFFICIAL, "", first + ['/'] + rest + [':'] + tag))
  {
    WithoutDomain(first, rest + [':'] + tag);
    assert first + ['/'] + (rest + [':'] + tag) == first + ['/'] + rest + [':'] + tag;
  }

  lemma NamedBare(registry: string, name: string, tag: string)
    requires ':' !in name && ':' !in tag
    ensures Named(registry, "", name) == Query(registry, name, "latest")
    ensures Named(registry, "", name + [':'] + tag) == Query(registry, name, tag)
  {
    NamedWithoutColon(registry, "", name, tag);
    assert "" + name == name;
  }

  /** A domain in front is the registry, and the rest is taken from there. */
  lemma RegistryResolves(registry: string, name: string, tag: string)
    requires DomainShaped(registry) && ':' !in name && ':' !in tag
    ensures Resolve(registry + "/" + name) == Some(Query(registry, name, "latest"))
    ensures Resolve(registry + "/" + (name + [':'] + tag)) == Some(Query(registry, name, tag))
  {
    KnownRegistry(registry, name);
    KnownRegistry(registry, name + [':'] + tag);
    NamedBare(registry, name, tag);
  }

  /** A tag with a slash makes of a plain name one that is not official. */
  lemma SlashInTagResolves(name: string, start: string, end: string)
    requires ':' !in name && '/' !in name && ':' !in start && '/' !in start && ':' !in end
    ensures Resolve(name + [':'] + (start + ['/'] + end)) == Some(Query("index.docker.io", name, start + ['/'] + end))
  {
    OfficialText();
    SlashedTag(name, start, end);
    var tag := start + ['/'] + end;
    assert ':' !in tag;
    NamedBare(OFFICIAL, name, tag);
  }

  lemma SlashedTag(name: string, start: string, end: string)
    requires '/' !in name && '/' !in start
    ensures Resolve(name + [':'] + (start + ['/'] + end)) == Some(Named(OFFICIAL, "", name + [':'] + (start + ['/'] + end)))
  {
    var first := name + [':'] + start;
    ColonInFirst(name, start);
    SlashNotIn(name, start);
    WithoutDomain(first, end);
    Regrouped(name, start, end);
  }

  lemma SlashNotIn(name: string, start: string)
    requires '/' !in name && '/' !in start
    ensures '/' !in name + [':'] + start
  {
  }

  lemma Regrouped(name: string, start: string, end: string)
    ensures name + [':'] + start + ['/'] + end == name + [':'] + (start + ['/'] + end)
  {
  }

  lemma ColonInFirst(name: string, rest: string)
    ensures !DomainShaped(name + [':'] + rest)
  {
    var s := name + [':'] + rest;
    assert s[|name|] == ':' && ':' in s;
    if DomainShaped(s) {
      DomainNeeds(s);
    }
  }

  // ---------------------------------------------------------------------------------------
  // What a domain looks like
  // ---------------------------------------------------------------------------------------

  predicate DomainChar(c: char) {
    'a' <= c <= 'z' || 'A' <= c <= 'Z' || '0' <= c <= '9' || c == '-' || c == '.'
  }

  /** No dash or dot in front, no other characters, and two to six letters behind the last dot. */
  predicate DomainLike(s: string) {
    var dot := LastIndexOf(s, '.');
    && (forall c | c in s :: DomainChar(c))
    && 1 <= dot && 3 <= |s| - dot <= 7 && s[0] != '-' && s[0] != '.'
    && forall i | dot < i < |s| :: 'a' <= s[i] <= 'z' || 'A' <= s[i] <= 'Z'
  }

  lemma {:induction false} LabelsAreDomainChars(s: string)
    requires Labels(s)
    ensures forall c | c in s :: DomainChar(c)
    decreases |s|
  {
    if s != [] {
      var k :| 2 <= k <= |s| && (forall i | 1 <= i < k :: IsLower(s[i]) || IsNumber(s[i])) && Labels(s[k..]);
      LabelsAreDomainChars(s[k..]);
      forall c | c in s ensures DomainChar(c) {
        var i :| 0 <= i < |s| && s[i] == c;
        assert i >= k ==> s[k..][i - k] == c;
      }
    }
  }

  lemma DomainNeeds(s: string)
    requires DomainShaped(s)
    ensures DomainLike(s)
  {
    var i, j :| 0 <= i <= j <= |s| && HostPart(s[..i]) && Labels(s[i..j]) && TopLevel(s[j..]);
    assert s[..i][0] == s[0];
    NeedsOfParts(s, s[..i], s[i..j], s[j..]);
  }

  lemma NeedsOfParts(s: string, host: string, labels: string, top: string)
    requires s == host + labels + top && HostPart(host) && host[0] != '-' && Labels(labels) && TopLevel(top)
    ensures DomainLike(s)
  {
    LabelsAreDomainChars(labels);
    PartsAreDomainLike(host, labels, top);
  }

  lemma PartsAreDomainLike(host: string, labels: string, top: string)
    requires HostPart(host) && host[0] != '-' && TopLevel(top) && forall c | c in labels :: DomainChar(c)
    ensures DomainLike(host + labels + top)
  {
    var head, letters := host + labels, top[1..];
    NoDot(letters);
    LastSplit(head, '.', letters);
    LettersBehind(head, letters);
    CharsOfParts(host, labels, top);
    assert head + ['.'] + letters == host + labels + top;
    assert host[0] in host;
  }

  lemma NoDot(letters: string)
    requires forall i | 0 <= i < |letters| :: IsLower(letters[i]) || IsUpper(letters[i])
    ensures '.' !in letters && forall c | c in letters :: IsLower(c) || IsUpper(c)
  {
  }

  lemma CharsOfParts(host: string, labels: string, top: string)
    requires HostPart(host) && TopLevel(top) && forall c | c in labels :: DomainChar(c)
    ensures forall c | c in host + labels + top :: DomainChar(c)
  {
    forall c | c in host + labels + top ensures DomainChar(c) {
      assert c in host || c in labels || c in top;
    }
  }

  lemma LettersBehind(head: string, letters: string)
    requires forall c | c in letters :: IsLower(c) || IsUpper(c)
    ensures var s := head + ['.'] + letters;
            forall i | |head| < i < |s| :: 'a' <= s[i] <= 'z' || 'A' <= s[i] <= 'Z'
  {
    var s := head + ['.'] + letters;
    forall i | |head| < i < |s| ensures 'a' <= s[i] <= 'z' || 'A' <= s[i] <= 'Z' {
      assert s[i] == letters[i - |head| - 1] && s[i] in letters;
    }
  }

  predicate Label(l: string) {
    l != "" && forall c | c in l :: 'a' <= c <= 'z' || '0' <= c <= '9'
  }

  /** A host name and a top level make a domain, with any lower-case labels between them. */
  lemma DomainSuffices(host: string, labels: seq<string>, top: string)
    requires host != "" && host[0] != '-'
    requires forall c | c in host :: 'a' <= c <= 'z' || 'A' <= c <= 'Z' || '0' <= c <= '9' || c == '-'
    requires forall l | l in labels :: Label(l)
    requires 2 <= |top| <= 6 && forall c | c in top :: 'a' <= c <= 'z' || 'A' <= c <= 'Z'
    ensures DomainShaped(host + Dotted(labels) + (['.'] + top))
  {
    DottedIsLabels(labels);
    forall i | 1 <= i < |['.'] + top| ensures IsLower((['.'] + top)[i]) || IsUpper((['.'] + top)[i]) {
      assert (['.'] + top)[i] == top[i - 1] && top[i - 1] in top;
    }
    InThreeParts(host, Dotted(labels), ['.'] + top);
  }

  function Dotted(labels: seq<string>): string {
    if labels == [] then [] else ['.'] + labels[0] + Dotted(labels[1..])
  }

  lemma {:induction false} DottedIsLabels(labels: seq<string>)
    requires forall l | l in labels :: Label(l)
    ensures Labels(Dotted(labels))
  {
    if labels != [] {
      var rest := labels[1..];
      assert forall l | l in rest :: l in labels;
      DottedIsLabels(rest);
      assert labels[0] in labels;
      OneMoreLabel(labels[0], Dotted(rest));
    }
  }

  lemma OneMoreLabel(l: string, rest: string)
    requires Label(l) && Labels(rest)
    ensures Labels(['.'] + l + rest)
  {
    var s, k := ['.'] + l + rest, 1 + |l|;
    assert s[k..] == rest;
    forall i | 1 <= i < k ensures IsLower(s[i]) || IsNumber(s[i]) {
      assert s[i] == l[i - 1] && l[i - 1] in l;
    }
  }
}
