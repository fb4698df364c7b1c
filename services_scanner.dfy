/** Discovering the images the ECS services run and turning them into scan
    jobs (ecr_scan_reporter/services_scanner.py). The private-ECR URI
    pattern comes from another library and is a parameter `parse`; the
    ECS listing calls are parameters `listDefs` and `defImages`. */
module ServicesScanner {
  import opened Wrappers
  import opened Dicts

  /** The groups the private-ECR URI pattern captures: the registry's
      account id, the repository name and the raw tag group (":tag" or
      "@sha256:..."). */
  datatype ParsedUri = ParsedUri(accountId: string, repoName: string, tag: string)

  type UriParser = string -> Option<ParsedUri>

  /** `re.sub(r"^:|^@", "", tag)`: one leading ':' or '@' removed. */
  function StripSeparator(t: string): string {
    if |t| > 0 && (t[0] == ':' || t[0] == '@') then t[1..] else t
  }

  /** Exactly one separator is removed, even when the rest starts with
      another one, and a value without one is kept as it is. */
  lemma StripSeparatorOnce(c: char, t: string)
    requires c == ':' || c == '@'
    ensures StripSeparator([c] + t) == t
    ensures |t| > 0 && t[0] != ':' && t[0] != '@' ==> StripSeparator(t) == t
  {
    assert ([c] + t)[1..] == t;
  }

  /** A value starting with "sha" is taken as a digest, any other as a tag. */
  predicate IsDigest(t: string) { |t| >= 3 && t[..3] == "sha" }

  /** `{"imageDigests": [...], "imageTags": [...]}`. */
  datatype Bucket = Bucket(imageDigests: seq<string>, imageTags: seq<string>)

  /** repository name -> bucket, in insertion order. */
  type Repos = seq<(string, Bucket)>

  /** registry (account id) -> repositories, in insertion order. */
  type Registries = seq<(string, Repos)>

  function Value(p: ParsedUri): string { StripSeparator(p.tag) }

  /** The parts of the URIs the pattern accepts, in order. */
  function Accepted(uris: seq<string>, parse: UriParser): seq<ParsedUri>
    decreases |uris|
  {
    if |uris| == 0 then []
    else
      var n := |uris| - 1;
      Accepted(uris[..n], parse) + (match parse(uris[n]) case Some(p) => [p] case None => [])
  }

  /** The value appended to the digests or the tags unless already there. */
  function AddToBucket(b: Bucket, v: string): Bucket {
    if IsDigest(v) then
      if v in b.imageDigests then b else b.(imageDigests := b.imageDigests + [v])
    else
      if v in b.imageTags then b else b.(imageTags := b.imageTags + [v])
  }

  function AddToRepos(repos: Repos, name: string, v: string): Repos {
    var b := if name in Keys(repos) then Get(repos, name) else Bucket([], []);
    Put(repos, name, AddToBucket(b, v))
  }

  /** One accepted URI entered into the index, creating its registry and
      repository entries when they are new. */
  function AddUri(idx: Registries, p: ParsedUri): Registries {
    var repos := if p.accountId in Keys(idx) then Get(idx, p.accountId) else [];
    Put(idx, p.accountId, AddToRepos(repos, p.repoName, Value(p)))
  }

  function Build(ps: seq<ParsedUri>): Registries
    decreases |ps|
  {
    if |ps| == 0 then [] else AddUri(Build(ps[..|ps| - 1]), ps[|ps| - 1])
  }

  /** The index `transform_image_description` returns. */
  function Index(uris: seq<string>, parse: UriParser): Registries {
    Build(Accepted(uris, parse))
  }

  /** The body of the loop for an accepted URI: the registry entry and the
      repository entry made when missing, then the value appended to the
      digests or the tags unless already there. */
  method EnterUri(registries: Registries, p: ParsedUri) returns (registries': Registries)
    ensures registries' == AddUri(registries, p)
  {
    var registry := p.accountId;
    var tag := StripSeparator(p.tag);
    var repoName := p.repoName;
    registries' := registries;
    if registry !in Keys(registries') {
      registries' := Put(registries', registry, []);
    }
    PutGet(registries, registry, [], registry);
    var repos := Get(registries', registry);
    ghost var reposBefore := repos;
    if repoName !in Keys(repos) {
      repos := Put(repos, repoName, Bucket([], []));
    }
    PutGet(reposBefore, repoName, Bucket([], []), repoName);
    var bucket := Get(repos, repoName);
    if IsDigest(tag) && tag !in bucket.imageDigests {
      bucket := bucket.(imageDigests := bucket.imageDigests + [tag]);
    } else if !IsDigest(tag) && tag !in bucket.imageTags {
      bucket := bucket.(imageTags := bucket.imageTags + [tag]);
    }
    PutPut(reposBefore, repoName, Bucket([], []), bucket);
    PutPut(registries, registry, [], Put(repos, repoName, bucket));
    registries' := Put(registries', registry, Put(repos, repoName, bucket));
  }

  /** `transform_image_description`: the nested registries dictionary built
      URI by URI; a URI the pattern rejects is skipped. */
  method TransformImageDescription(images: seq<string>, parse: UriParser) returns (registries: Registries)
    ensures registries == Index(images, parse)
  {
    registries := [];
    var i := 0;
    while i < |images|
      invariant 0 <= i <= |images|
      invariant registries == Index(images[..i], parse)
    {
      assert images[..i + 1][..i] == images[..i];
      var parts := parse(images[i]);
      if parts.None? {
        assert images[..i + 1][i] == images[i];
        assert Accepted(images[..i + 1], parse) == Accepted(images[..i], parse) + [];
        assert Accepted(images[..i], parse) + [] == Accepted(images[..i], parse);
        i := i + 1;
        continue;
      }
      ghost var ps := Accepted(images[..i], parse);
      assert Accepted(images[..i + 1], parse) == ps + [parts.value];
      assert (ps + [parts.value])[..|ps|] == ps;
      assert Build(ps + [parts.value]) == AddUri(Build(ps), parts.value);
      registries := EnterUri(registries, parts.value);
      i := i + 1;
    }
    assert images[..i] == images;
  }

  // ---------------------------------------------------------------------
  // What the index holds, stated over the accepted URIs
  // ---------------------------------------------------------------------

  function Accounts(ps: seq<ParsedUri>): (rs: seq<string>)
    ensures |rs| == |ps|
    ensures forall i :: 0 <= i < |ps| ==> rs[i] == ps[i].accountId
  {
    seq(|ps|, i requires 0 <= i < |ps| => ps[i].accountId)
  }

  /** The repository names of the URIs of registry r, in order. */
  function ReposOf(ps: seq<ParsedUri>, r: string): seq<string>
    decreases |ps|
  {
    if |ps| == 0 then []
    else
      var n := |ps| - 1;
      ReposOf(ps[..n], r) + (if ps[n].accountId == r then [ps[n].repoName] else [])
  }

  /** The values of the URIs of repository (r, name) that are digests
      (`digests`) or tags (not `digests`), in order. */
  function ValuesOf(ps: seq<ParsedUri>, r: string, name: string, digests: bool): seq<string>
    decreases |ps|
  {
    if |ps| == 0 then []
    else
      var n := |ps| - 1;
      var p := ps[n];
      ValuesOf(ps[..n], r, name, digests)
        + (if p.accountId == r && p.repoName == name && IsDigest(Value(p)) == digests then [Value(p)] else [])
  }

  /** A repository map of registry r is what the URIs make of it: its names
      in first-occurrence order, and for each name the digests and the tags
      in first-occurrence order without repetition. */
  ghost predicate ReposFrom(repos: Repos, ps: seq<ParsedUri>, r: string) {
    Keys(repos) == Dedup(ReposOf(ps, r)) &&
    forall name :: name in Keys(repos) ==>
      Get(repos, name) == Bucket(Dedup(ValuesOf(ps, r, name, true)), Dedup(ValuesOf(ps, r, name, false)))
  }

  ghost predicate IndexFrom(idx: Registries, ps: seq<ParsedUri>) {
    Keys(idx) == Dedup(Accounts(ps)) &&
    forall r :: r in Keys(idx) ==> ReposFrom(Get(idx, r), ps, r)
  }

  lemma {:induction false} ReposOfMembers(ps: seq<ParsedUri>, r: string)
    ensures forall name :: name in ReposOf(ps, r) <==>
              exists i :: 0 <= i < |ps| && ps[i].accountId == r && ps[i].repoName == name
    decreases |ps|
  {
    if |ps| > 0 {
      var n := |ps| - 1;
      ReposOfMembers(ps[..n], r);
      forall name | name in ReposOf(ps, r)
        ensures exists i :: 0 <= i < |ps| && ps[i].accountId == r && ps[i].repoName == name
      {
        if name in ReposOf(ps[..n], r) {
          var i :| 0 <= i < n && ps[..n][i].accountId == r && ps[..n][i].repoName == name;
          assert ps[i] == ps[..n][i];
        }
      }
      forall name | exists i :: 0 <= i < |ps| && ps[i].accountId == r && ps[i].repoName == name
        ensures name in ReposOf(ps, r)
      {
        var i :| 0 <= i < |ps| && ps[i].accountId == r && ps[i].repoName == name;
        if i < n {
          assert ps[..n][i] == ps[i];
        }
      }
    }
  }

  lemma ValuesOfMembers(ps: seq<ParsedUri>, r: string, name: string, digests: bool)
    ensures forall v :: v in ValuesOf(ps, r, name, digests) <==>
              exists i :: 0 <= i < |ps| && ps[i].accountId == r && ps[i].repoName == name
                          && Value(ps[i]) == v && IsDigest(v) == digests
  {
    ValuesOfSound(ps, r, name, digests);
    ValuesOfComplete(ps, r, name, digests);
  }

  lemma {:induction false} ValuesOfSound(ps: seq<ParsedUri>, r: string, name: string, digests: bool)
    ensures forall v :: v in ValuesOf(ps, r, name, digests) ==>
              exists i :: 0 <= i < |ps| && ps[i].accountId == r && ps[i].repoName == name
                          && Value(ps[i]) == v && IsDigest(v) == digests
    decreases |ps|
  {
    if |ps| > 0 {
      var n := |ps| - 1;
      ValuesOfSound(ps[..n], r, name, digests);
      forall v | v in ValuesOf(ps, r, name, digests)
        ensures exists i :: 0 <= i < |ps| && ps[i].accountId == r && ps[i].repoName == name
                            && Value(ps[i]) == v && IsDigest(v) == digests
      {
        if v in ValuesOf(ps[..n], r, name, digests) {
          var i :| 0 <= i < n && ps[..n][i].accountId == r && ps[..n][i].repoName == name
                   && Value(ps[..n][i]) == v && IsDigest(v) == digests;
          assert ps[i] == ps[..n][i];
        }
      }
    }
  }

  lemma {:induction false} ValuesOfComplete(ps: seq<ParsedUri>, r: string, name: string, digests: bool)
    ensures forall i :: 0 <= i < |ps| && ps[i].accountId == r && ps[i].repoName == name &&
                        IsDigest(Value(ps[i])) == digests ==>
                          Value(ps[i]) in ValuesOf(ps, r, name, digests)
    decreases |ps|
  {
    if |ps| > 0 {
      var n := |ps| - 1;
      ValuesOfComplete(ps[..n], r, name, digests);
      forall i | 0 <= i < n && ps[i].accountId == r && ps[i].repoName == name
                 && IsDigest(Value(ps[i])) == digests
        ensures Value(ps[i]) in ValuesOf(ps, r, name, digests)
      {
        assert ps[..n][i] == ps[i];
      }
    }
  }

  /** A registry no URI names has no repositories; a repository no URI
      names has no values. */
  lemma Unnamed(ps: seq<ParsedUri>, r: string, name: string)
    ensures r !in Accounts(ps) ==> ReposOf(ps, r) == []
    ensures name !in ReposOf(ps, r) ==> ValuesOf(ps, r, name, true) == [] && ValuesOf(ps, r, name, false) == []
  {
    ReposOfMembers(ps, r);
    ValuesOfMembers(ps, r, name, true);
    ValuesOfMembers(ps, r, name, false);
    if ReposOf(ps, r) != [] {
      assert ReposOf(ps, r)[0] in ReposOf(ps, r);
      var i :| 0 <= i < |ps| && ps[i].accountId == r && ps[i].repoName == ReposOf(ps, r)[0];
      assert Accounts(ps)[i] == r;
    }
    if ValuesOf(ps, r, name, true) != [] {
      var v := ValuesOf(ps, r, name, true)[0];
      assert v in ValuesOf(ps, r, name, true);
      var i :| 0 <= i < |ps| && ps[i].accountId == r && ps[i].repoName == name && Value(ps[i]) == v && IsDigest(v);
      assert name in ReposOf(ps, r);
    }
    if ValuesOf(ps, r, name, false) != [] {
      var v := ValuesOf(ps, r, name, false)[0];
      assert v in ValuesOf(ps, r, name, false);
      var i :| 0 <= i < |ps| && ps[i].accountId == r && ps[i].repoName == name && Value(ps[i]) == v && !IsDigest(v);
      assert name in ReposOf(ps, r);
    }
  }

  lemma SnocOf(ps: seq<ParsedUri>, p: ParsedUri, r: string, name: string, digests: bool)
    ensures ReposOf(ps + [p], r) == if p.accountId == r then ReposOf(ps, r) + [p.repoName] else ReposOf(ps, r)
    ensures ValuesOf(ps + [p], r, name, digests) ==
              if p.accountId == r && p.repoName == name && IsDigest(Value(p)) == digests
              then ValuesOf(ps, r, name, digests) + [Value(p)]
              else ValuesOf(ps, r, name, digests)
  {
    assert (ps + [p])[..|ps|] == ps;
    assert ReposOf(ps, r) + [] == ReposOf(ps, r);
    assert ValuesOf(ps, r, name, digests) + [] == ValuesOf(ps, r, name, digests);
  }

  /** The bucket of the URI's own repository gains its value. */
  lemma BucketStep(b: Bucket, ps: seq<ParsedUri>, p: ParsedUri)
    requires b == Bucket(Dedup(ValuesOf(ps, p.accountId, p.repoName, true)),
                         Dedup(ValuesOf(ps, p.accountId, p.repoName, false)))
    ensures AddToBucket(b, Value(p)) == Bucket(Dedup(ValuesOf(ps + [p], p.accountId, p.repoName, true)),
                                               Dedup(ValuesOf(ps + [p], p.accountId, p.repoName, false)))
  {
    SnocOf(ps, p, p.accountId, p.repoName, true);
    SnocOf(ps, p, p.accountId, p.repoName, false);
    DedupSnoc(ValuesOf(ps, p.accountId, p.repoName, true), Value(p));
    DedupSnoc(ValuesOf(ps, p.accountId, p.repoName, false), Value(p));
  }

  /** One URI of registry r entered into that registry's repositories. */
  lemma ReposStep(repos: Repos, ps: seq<ParsedUri>, p: ParsedUri)
    requires ReposFrom(repos, ps, p.accountId)
    ensures ReposFrom(AddToRepos(repos, p.repoName, Value(p)), ps + [p], p.accountId)
  {
    var r := p.accountId;
    var name := p.repoName;
    var ps' := ps + [p];
    var b := if name in Keys(repos) then Get(repos, name) else Bucket([], []);
    var b' := AddToBucket(b, Value(p));
    var repos' := Put(repos, name, b');
    assert Keys(repos') == Dedup(ReposOf(ps', r)) by {
      PutKeys(repos, name, b');
      SnocOf(ps, p, r, name, true);
      DedupSnoc(ReposOf(ps, r), name);
    }
    assert b == Bucket(Dedup(ValuesOf(ps, r, name, true)), Dedup(ValuesOf(ps, r, name, false))) by {
      if name !in Keys(repos) {
        DedupProps(ReposOf(ps, r));
        Unnamed(ps, r, name);
        assert Dedup<string>([]) == [];
      }
    }
    BucketStep(b, ps, p);
    forall name' | name' in Keys(repos')
      ensures Get(repos', name') ==
              Bucket(Dedup(ValuesOf(ps', r, name', true)), Dedup(ValuesOf(ps', r, name', false)))
    {
      PutKeys(repos, name, b');
      PutGet(repos, name, b', name');
      if name' != name {
        SnocOf(ps, p, r, name', true);
        SnocOf(ps, p, r, name', false);
      }
    }
  }

  /** A URI of another registry changes nothing about registry r. */
  lemma ReposOther(repos: Repos, ps: seq<ParsedUri>, r: string, p: ParsedUri)
    requires ReposFrom(repos, ps, r) && p.accountId != r
    ensures ReposFrom(repos, ps + [p], r)
  {
    SnocOf(ps, p, r, "", true);
    forall name | name in Keys(repos)
      ensures Get(repos, name) ==
              Bucket(Dedup(ValuesOf(ps + [p], r, name, true)), Dedup(ValuesOf(ps + [p], r, name, false)))
    {
      SnocOf(ps, p, r, name, true);
      SnocOf(ps, p, r, name, false);
    }
  }

  lemma IndexStep(idx: Registries, ps: seq<ParsedUri>, p: ParsedUri)
    requires IndexFrom(idx, ps)
    ensures IndexFrom(AddUri(idx, p), ps + [p])
  {
    var r := p.accountId;
    var ps' := ps + [p];
    assert Accounts(ps') == Accounts(ps) + [r];
    var repos := if r in Keys(idx) then Get(idx, r) else [];
    var repos' := AddToRepos(repos, p.repoName, Value(p));
    PutKeys(idx, r, repos');
    DedupSnoc(Accounts(ps), r);
    DedupProps(Accounts(ps));
    if r !in Keys(idx) {
      Unnamed(ps, r, "");
      assert ReposFrom([], ps, r);
    }
    ReposStep(repos, ps, p);
    forall r' | r' in Keys(AddUri(idx, p))
      ensures ReposFrom(Get(AddUri(idx, p), r'), ps', r')
    {
      PutGet(idx, r, repos', r');
      if r' != r {
        ReposOther(Get(idx, r'), ps, r', p);
      }
    }
  }

  /** The index holds exactly what the accepted URIs make of it. */
  lemma {:induction false} BuildIsIndexFrom(ps: seq<ParsedUri>)
    ensures IndexFrom(Build(ps), ps)
    decreases |ps|
  {
    if |ps| == 0 {
      assert Accounts(ps) == [];
    } else {
      var n := |ps| - 1;
      BuildIsIndexFrom(ps[..n]);
      IndexStep(Build(ps[..n]), ps[..n], ps[n]);
      assert ps[..n] + [ps[n]] == ps;
    }
  }

  /** The index is well formed: no registry and no repository twice, each
      list without repetition, digests only among the digests and tags only
      among the tags, and no repository without a value. */
  lemma IndexWellFormed(uris: seq<string>, parse: UriParser)
    ensures NoDuplicates(Keys(Index(uris, parse)))
    ensures forall r :: r in Keys(Index(uris, parse)) ==>
              var repos := Get(Index(uris, parse), r);
              NoDuplicates(Keys(repos)) &&
              forall name :: name in Keys(repos) ==>
                var b := Get(repos, name);
                NoDuplicates(b.imageDigests) && NoDuplicates(b.imageTags) &&
                (forall v :: v in b.imageDigests ==> IsDigest(v)) &&
                (forall v :: v in b.imageTags ==> !IsDigest(v)) &&
                |b.imageDigests| + |b.imageTags| > 0
  {
    var ps := Accepted(uris, parse);
    var idx := Index(uris, parse);
    BuildIsIndexFrom(ps);
    DedupProps(Accounts(ps));
    forall r | r in Keys(idx)
      ensures var repos := Get(idx, r);
              NoDuplicates(Keys(repos)) &&
              forall name :: name in Keys(repos) ==>
                var b := Get(repos, name);
                NoDuplicates(b.imageDigests) && NoDuplicates(b.imageTags) &&
                (forall v :: v in b.imageDigests ==> IsDigest(v)) &&
                (forall v :: v in b.imageTags ==> !IsDigest(v)) &&
                |b.imageDigests| + |b.imageTags| > 0
    {
      var repos := Get(idx, r);
      DedupProps(ReposOf(ps, r));
      ReposOfMembers(ps, r);
      forall name | name in Keys(repos)
        ensures var b := Get(repos, name);
                NoDuplicates(b.imageDigests) && NoDuplicates(b.imageTags) &&
                (forall v :: v in b.imageDigests ==> IsDigest(v)) &&
                (forall v :: v in b.imageTags ==> !IsDigest(v)) &&
                |b.imageDigests| + |b.imageTags| > 0
      {
        DedupProps(ValuesOf(ps, r, name, true));
        DedupProps(ValuesOf(ps, r, name, false));
        ValuesOfMembers(ps, r, name, true);
        ValuesOfMembers(ps, r, name, false);
        var i :| 0 <= i < |ps| && ps[i].accountId == r && ps[i].repoName == name;
        var v := Value(ps[i]);
        if IsDigest(v) {
          assert v in Get(repos, name).imageDigests;
        } else {
          assert v in Get(repos, name).imageTags;
        }
      }
    }
  }

  /** The index holds value v under registry r and repository `name`. */
  predicate Holds(idx: Registries, r: string, name: string, v: string) {
    r in Keys(idx) && name in Keys(Get(idx, r)) &&
    (v in Get(Get(idx, r), name).imageDigests || v in Get(Get(idx, r), name).imageTags)
  }

  /** The index holds a value exactly when an accepted URI carries it: every
      accepted URI's value is filed under its registry and repository, and
      nothing else is. */
  lemma IndexHoldsExactly(uris: seq<string>, parse: UriParser, r: string, name: string, v: string)
    ensures Holds(Index(uris, parse), r, name, v) <==>
              exists p :: p in Accepted(uris, parse) && p.accountId == r && p.repoName == name && Value(p) == v
  {
    var ps := Accepted(uris, parse);
    BuildIsIndexFrom(ps);
    if exists p :: p in ps && p.accountId == r && p.repoName == name && Value(p) == v {
      var p :| p in ps && p.accountId == r && p.repoName == name && Value(p) == v;
      HoldsAccepted(Build(ps), ps, p);
    }
    if Holds(Build(ps), r, name, v) {
      HoldsOnlyAccepted(Build(ps), ps, r, name, v);
    }
  }

  lemma HoldsAccepted(idx: Registries, ps: seq<ParsedUri>, p: ParsedUri)
    requires IndexFrom(idx, ps) && p in ps
    ensures Holds(idx, p.accountId, p.repoName, Value(p))
  {
    var r, name, v := p.accountId, p.repoName, Value(p);
    var i :| 0 <= i < |ps| && ps[i] == p;
    DedupProps(Accounts(ps));
    assert Accounts(ps)[i] == r;
    DedupProps(ReposOf(ps, r));
    ReposOfMembers(ps, r);
    assert name in Keys(Get(idx, r));
    ValuesOfMembers(ps, r, name, IsDigest(v));
    DedupProps(ValuesOf(ps, r, name, IsDigest(v)));
    assert ps[i].accountId == r && ps[i].repoName == name && Value(ps[i]) == v;
  }

  lemma HoldsOnlyAccepted(idx: Registries, ps: seq<ParsedUri>, r: string, name: string, v: string)
    requires IndexFrom(idx, ps) && Holds(idx, r, name, v)
    ensures exists p :: p in ps && p.accountId == r && p.repoName == name && Value(p) == v
  {
    var d := v in Get(Get(idx, r), name).imageDigests;
    DedupProps(ValuesOf(ps, r, name, d));
    ValuesOfMembers(ps, r, name, d);
    assert v in ValuesOf(ps, r, name, d);
    var i :| 0 <= i < |ps| && ps[i].accountId == r && ps[i].repoName == name && Value(ps[i]) == v && IsDigest(v) == d;
    assert ps[i] in ps;
  }

  /** A URI whose parts are already in the index changes nothing. */
  lemma AddSeen(idx: Registries, ps: seq<ParsedUri>, p: ParsedUri)
    requires IndexFrom(idx, ps) && p in ps
    ensures AddUri(idx, p) == idx
  {
    var r := p.accountId;
    var name := p.repoName;
    var i :| 0 <= i < |ps| && ps[i] == p;
    DedupProps(Accounts(ps));
    assert Accounts(ps)[i] == r;
    var repos := Get(idx, r);
    DedupProps(ReposOf(ps, r));
    ReposOfMembers(ps, r);
    assert name in Keys(repos);
    var b := Get(repos, name);
    ValuesOfMembers(ps, r, name, IsDigest(Value(p)));
    DedupProps(ValuesOf(ps, r, name, IsDigest(Value(p))));
    assert ps[i].accountId == r && ps[i].repoName == name && Value(ps[i]) == Value(p);
    assert AddToBucket(b, Value(p)) == b;
    PutSame(repos, name);
    PutSame(idx, r);
  }

  lemma {:induction false} BuildSeen(ps: seq<ParsedUri>, qs: seq<ParsedUri>)
    requires forall q :: q in qs ==> q in ps
    ensures Build(ps + qs) == Build(ps)
    decreases |qs|
  {
    if |qs| == 0 {
      assert ps + qs == ps;
    } else {
      var n := |qs| - 1;
      var last := qs[n];
      var s := ps + qs;
      assert s[..|s| - 1] == ps + qs[..n] && s[|s| - 1] == last;
      assert Build(s) == AddUri(Build(ps + qs[..n]), last);
      assert Build(ps + qs[..n]) == Build(ps) by {
        assert forall q :: q in qs[..n] ==> q in qs;
        BuildSeen(ps, qs[..n]);
      }
      assert AddUri(Build(ps), last) == Build(ps) by {
        assert last in ps;
        BuildIsIndexFrom(ps);
        AddSeen(Build(ps), ps, last);
      }
    }
  }

  lemma {:induction false} AcceptedAppend(a: seq<string>, b: seq<string>, parse: UriParser)
    ensures Accepted(a + b, parse) == Accepted(a, parse) + Accepted(b, parse)
    decreases |b|
  {
    if |b| == 0 {
      assert a + b == a;
    } else {
      var n := |b| - 1;
      AcceptedAppend(a, b[..n], parse);
      assert (a + b)[..|a + b| - 1] == a + b[..n];
    }
  }

  /** Feeding the same URI list twice builds the same index as feeding it
      once. */
  lemma IndexIdempotent(uris: seq<string>, parse: UriParser)
    ensures Index(uris + uris, parse) == Index(uris, parse)
  {
    AcceptedAppend(uris, uris, parse);
    BuildSeen(Accepted(uris, parse), Accepted(uris, parse));
  }

  // ---------------------------------------------------------------------
  // build_services_images_registries
  // ---------------------------------------------------------------------

  /** The `roles` argument: None, a string, a list of role ARNs, or any other
      value, truthy or not. */
  datatype RolesArg = NoRoles | RoleString(s: string) | RoleList(arns: seq<string>) | OtherValue(truthy: bool)

  /** The session the ECS calls go through: the caller's own, or one
      assumed into a role. */
  datatype Session = OwnSession | AssumedRole(roleArn: string)

  /** The TypeError raised for a roles value that is neither a string nor a
      list. */
  datatype RolesError = RolesTypeError

  /** `str.split(sep)`: the pieces between the separators, empty ones
      included, and always at least one. */
  function Split(s: string, sep: char): (parts: seq<string>)
    ensures |parts| >= 1
    decreases |s|
  {
    if |s| == 0 then [""]
    else
      var rest := Split(s[1..], sep);
      if s[0] == sep then [""] + rest else [[s[0]] + rest[0]] + rest[1..]
  }

  /** `sep.join(parts)`. */
  function Join(parts: seq<string>, sep: char): string
    requires |parts| >= 1
    decreases |parts|
  {
    if |parts| == 1 then parts[0] else parts[0] + [sep] + Join(parts[1..], sep)
  }

  /** Splitting loses nothing: the pieces hold no separator and joining
      them gives the string back. */
  lemma {:induction false} SplitJoin(s: string, sep: char)
    ensures Join(Split(s, sep), sep) == s
    ensures forall k :: 0 <= k < |Split(s, sep)| ==> sep !in Split(s, sep)[k]
    decreases |s|
  {
    if |s| > 0 {
      var rest := Split(s[1..], sep);
      SplitJoin(s[1..], sep);
      if s[0] == sep {
        assert Split(s, sep)[1..] == rest;
        assert forall k :: 1 <= k < |Split(s, sep)| ==> Split(s, sep)[k] == rest[k - 1];
      } else {
        var parts := Split(s, sep);
        assert parts[1..] == rest[1..];
        if |rest| == 1 {
          assert Join(parts, sep) == [s[0]] + rest[0];
        } else {
          assert Join(rest, sep) == rest[0] + [sep] + Join(rest[1..], sep);
        }
        assert forall k :: 1 <= k < |parts| ==> parts[k] == rest[k];
      }
      assert s == [s[0]] + s[1..];
    }
  }

  /** The roles normalisation: a non-empty string split on commas, a
      non-empty list used as it is, any other truthy value refused, and no
      roles at all meaning the caller's own session. */
  function Sessions(roles: RolesArg): (r: Result<seq<Session>, RolesError>)
    ensures r.Failure? <==> roles.OtherValue? && roles.truthy
    ensures r.Success? ==> |r.value| >= 1
    ensures roles.RoleList? && |roles.arns| > 0 ==>
              r.Success? && |r.value| == |roles.arns| &&
              forall k :: 0 <= k < |r.value| ==> r.value[k] == AssumedRole(roles.arns[k])
  {
    match roles
    case NoRoles => Success([OwnSession])
    case RoleString(s) =>
      if s == "" then Success([OwnSession])
      else
        var arns := Split(s, ',');
        Success(seq(|arns|, i requires 0 <= i < |arns| => AssumedRole(arns[i])))
    case RoleList(arns) =>
      if |arns| == 0 then Success([OwnSession])
      else Success(seq(|arns|, i requires 0 <= i < |arns| => AssumedRole(arns[i])))
    case OtherValue(truthy) =>
      if truthy then Failure(RolesTypeError) else Success([OwnSession])
  }

  /** The roles of a comma-separated string are its pieces in order: joined
      back with commas they give the string, and none holds a comma; the
      caller's own session is used exactly when no role is given. */
  lemma SessionsOfString(s: string)
    requires s != ""
    ensures var ss := Sessions(RoleString(s)).value;
            (forall k :: 0 <= k < |ss| ==> ss[k].AssumedRole? && ',' !in ss[k].roleArn) &&
            Join(seq(|ss|, k requires 0 <= k < |ss| => ss[k].roleArn), ',') == s
  {
    SplitJoin(s, ',');
    var ss := Sessions(RoleString(s)).value;
    assert seq(|ss|, k requires 0 <= k < |ss| => ss[k].roleArn) == Split(s, ',');
  }

  lemma OwnSessionOnlyWithoutRoles(roles: RolesArg)
    requires Sessions(roles).Success?
    ensures OwnSession in Sessions(roles).value <==>
              match roles
              case NoRoles => true
              case RoleString(s) => s == ""
              case RoleList(arns) => |arns| == 0
              case OtherValue(truthy) => !truthy
  {
  }

  /** The container images of the given task definitions, in order. */
  function DefsImages(session: Session, defs: seq<string>, defImages: (Session, string) -> seq<string>): seq<string>
    decreases |defs|
  {
    if |defs| == 0 then []
    else DefsImages(session, defs[..|defs| - 1], defImages) + defImages(session, defs[|defs| - 1])
  }

  /** The images of every task definition of every session, in order. */
  function Collected(sessions: seq<Session>, listDefs: Session -> seq<string>,
                     defImages: (Session, string) -> seq<string>): seq<string>
    decreases |sessions|
  {
    if |sessions| == 0 then []
    else
      var n := |sessions| - 1;
      Collected(sessions[..n], listDefs, defImages) + DefsImages(sessions[n], listDefs(sessions[n]), defImages)
  }

  /** The registries index of the images the services run. */
  function ServicesRegistries(roles: RolesArg, listDefs: Session -> seq<string>,
                              defImages: (Session, string) -> seq<string>, parse: UriParser): Result<Registries, RolesError>
  {
    match Sessions(roles)
    case Failure(e) => Failure(e)
    case Success(sessions) => Success(Index(Collected(sessions, listDefs, defImages), parse))
  }

  /** `build_services_images_registries`: the roles normalised, the images
      of every task definition of every session collected, then indexed. */
  method BuildServicesImagesRegistries(roles: RolesArg, listDefs: Session -> seq<string>,
                                       defImages: (Session, string) -> seq<string>, parse: UriParser)
      returns (registries: Result<Registries, RolesError>)
    ensures registries == ServicesRegistries(roles, listDefs, defImages, parse)
  {
    var sessions := Sessions(roles);
    if sessions.Failure? {
      return Failure(sessions.error);
    }
    var images: seq<string> := [];
    var i := 0;
    while i < |sessions.value|
      invariant 0 <= i <= |sessions.value|
      invariant images == Collected(sessions.value[..i], listDefs, defImages)
    {
      var session := sessions.value[i];
      var taskDefinitions := listDefs(session);
      var j := 0;
      while j < |taskDefinitions|
        invariant 0 <= j <= |taskDefinitions|
        invariant images == Collected(sessions.value[..i], listDefs, defImages)
                            + DefsImages(session, taskDefinitions[..j], defImages)
      {
        assert taskDefinitions[..j + 1][..j] == taskDefinitions[..j];
        images := images + defImages(session, taskDefinitions[j]);
        j := j + 1;
      }
      assert taskDefinitions[..j] == taskDefinitions;
      assert sessions.value[..i + 1][..i] == sessions.value[..i];
      i := i + 1;
    }
    assert sessions.value[..i] == sessions.value;
    var index := TransformImageDescription(images, parse);
    registries := Success(index);
  }

  // ---------------------------------------------------------------------
  // handle_ecs_discovery
  // ---------------------------------------------------------------------

  /** `{"imageDigest": d}` or `{"imageTag": t}`. */
  datatype ImageIdent = DigestIdent(imageDigest: string) | TagIdent(imageTag: string)

  /** `{"repositoryName": ..., "images": [...], "registryId": ...}`. */
  datatype Job = Job(repositoryName: string, images: seq<ImageIdent>, registryId: string)

  /** The image ids of a bucket: its digests, then its tags. */
  function BucketIdents(b: Bucket): (ids: seq<ImageIdent>)
    ensures |ids| == |b.imageDigests| + |b.imageTags|
    ensures forall k :: 0 <= k < |b.imageDigests| ==> ids[k] == DigestIdent(b.imageDigests[k])
    ensures forall k :: 0 <= k < |b.imageTags| ==> ids[|b.imageDigests| + k] == TagIdent(b.imageTags[k])
  {
    seq(|b.imageDigests|, k requires 0 <= k < |b.imageDigests| => DigestIdent(b.imageDigests[k]))
      + seq(|b.imageTags|, k requires 0 <= k < |b.imageTags| => TagIdent(b.imageTags[k]))
  }

  /** One job per repository of a registry, in order. */
  function RepoJobs(repos: Repos, registryId: string): seq<Job>
    decreases |repos|
  {
    if |repos| == 0 then []
    else
      var n := |repos| - 1;
      RepoJobs(repos[..n], registryId) + [Job(repos[n].0, BucketIdents(repos[n].1), registryId)]
  }

  /** The jobs of the registries of the caller's account. */
  function Jobs(registries: Registries, account: string): seq<Job>
    decreases |registries|
  {
    if |registries| == 0 then []
    else
      var n := |registries| - 1;
      Jobs(registries[..n], account)
        + (if registries[n].0 == account then RepoJobs(registries[n].1, registries[n].0) else [])
  }

  /** The loop over the repositories of one registry. */
  method EmitRegistryJobs(registryId: string, registry: Repos) returns (jobs: seq<Job>)
    ensures jobs == RepoJobs(registry, registryId)
  {
    jobs := [];
    var i := 0;
    while i < |registry|
      invariant 0 <= i <= |registry|
      invariant jobs == RepoJobs(registry[..i], registryId)
    {
      var (repoName, images) := registry[i];
      var imagesIds: seq<ImageIdent> := [];
      var k := 0;
      while k < |images.imageDigests|
        invariant 0 <= k <= |images.imageDigests|
        invariant imagesIds == BucketIdents(Bucket(images.imageDigests[..k], []))
      {
        imagesIds := imagesIds + [DigestIdent(images.imageDigests[k])];
        k := k + 1;
      }
      assert images.imageDigests[..k] == images.imageDigests;
      k := 0;
      while k < |images.imageTags|
        invariant 0 <= k <= |images.imageTags|
        invariant imagesIds == BucketIdents(Bucket(images.imageDigests, images.imageTags[..k]))
      {
        imagesIds := imagesIds + [TagIdent(images.imageTags[k])];
        k := k + 1;
      }
      assert images.imageTags[..k] == images.imageTags;
      assert registry[..i + 1][..i] == registry[..i];
      jobs := jobs + [Job(repoName, imagesIds, registryId)];
      i := i + 1;
    }
    assert registry[..i] == registry;
  }

  /** The loop over the registries: registries of other accounts are
      skipped. */
  method EmitJobs(registries: Registries, account: string) returns (jobs: seq<Job>)
    ensures jobs == Jobs(registries, account)
  {
    jobs := [];
    var i := 0;
    while i < |registries|
      invariant 0 <= i <= |registries|
      invariant jobs == Jobs(registries[..i], account)
    {
      assert registries[..i + 1][..i] == registries[..i];
      var (registryId, registry) := registries[i];
      if registryId != account {
        i := i + 1;
        continue;
      }
      var repoJobs := EmitRegistryJobs(registryId, registry);
      jobs := jobs + repoJobs;
      i := i + 1;
    }
    assert registries[..i] == registries;
  }

  function EcsDiscovery(roles: RolesArg, account: string, listDefs: Session -> seq<string>,
                        defImages: (Session, string) -> seq<string>, parse: UriParser): Result<seq<Job>, RolesError>
  {
    match ServicesRegistries(roles, listDefs, defImages, parse)
    case Failure(e) => Failure(e)
    case Success(registries) => Success(Jobs(registries, account))
  }

  /** `handle_ecs_discovery`: the registries of the services' images, then
      one job per repository of the caller's own registry. */
  method HandleEcsDiscovery(roles: RolesArg, account: string, listDefs: Session -> seq<string>,
                            defImages: (Session, string) -> seq<string>, parse: UriParser)
      returns (jobs: Result<seq<Job>, RolesError>)
    ensures jobs == EcsDiscovery(roles, account, listDefs, defImages, parse)
  {
    var registries := BuildServicesImagesRegistries(roles, listDefs, defImages, parse);
    if registries.Failure? {
      return Failure(registries.error);
    }
    var emitted := EmitJobs(registries.value, account);
    jobs := Success(emitted);
  }

  /** One job per repository, in order, each with the repository's name,
      its digests then its tags, and the given registry id. */
  lemma {:induction false} RepoJobsShape(repos: Repos, registryId: string)
    ensures |RepoJobs(repos, registryId)| == |repos|
    ensures forall k :: 0 <= k < |repos| ==>
              RepoJobs(repos, registryId)[k] == Job(repos[k].0, BucketIdents(repos[k].1), registryId)
    decreases |repos|
  {
    if |repos| > 0 {
      var n := |repos| - 1;
      RepoJobsShape(repos[..n], registryId);
    }
  }

  /** A bucket without repeated values gives image ids without repetition. */
  lemma BucketIdentsDistinct(b: Bucket)
    requires NoDuplicates(b.imageDigests) && NoDuplicates(b.imageTags)
    ensures NoDuplicates(BucketIdents(b))
  {
    var ids := BucketIdents(b);
    var d := |b.imageDigests|;
    forall i, j | 0 <= i < j < |ids|
      ensures ids[i] != ids[j]
    {
      if j < d {
        assert ids[i] == DigestIdent(b.imageDigests[i]) && ids[j] == DigestIdent(b.imageDigests[j]);
      } else if i >= d {
        assert ids[i] == TagIdent(b.imageTags[i - d]) && ids[j] == TagIdent(b.imageTags[j - d]);
      } else {
        assert ids[i].DigestIdent? && ids[j].TagIdent?;
      }
    }
  }

  /** Every job is for the caller's account; with each registry named once,
      the jobs are those of the caller's own registry, and none when the
      services use no image of it. */
  lemma {:induction false} JobsOfOwnRegistry(registries: Registries, account: string)
    requires NoDuplicates(Keys(registries))
    ensures Jobs(registries, account) ==
              if account in Keys(registries) then RepoJobs(Get(registries, account), account) else []
    decreases |registries|
  {
    if |registries| > 0 {
      var n := |registries| - 1;
      var prefix := registries[..n];
      assert Keys(prefix) == Keys(registries)[..n];
      JobsOfOwnRegistry(prefix, account);
      assert Keys(registries) == Keys(prefix) + [registries[n].0];
      if registries[n].0 == account {
        GetAt(registries, n);
      } else if account in Keys(prefix) {
        var i :| 0 <= i < n && Keys(prefix)[i] == account;
        GetAt(registries, i);
        GetAt(prefix, i);
      }
    }
  }

  /** ECS discovery emits, for each repository of the caller's own registry
      that the services use, exactly one job for the caller's account,
      whose image ids are the repository's digests then its tags, without
      repetition; registries of other accounts give no job. */
  lemma DiscoveryJobs(roles: RolesArg, account: string, listDefs: Session -> seq<string>,
                      defImages: (Session, string) -> seq<string>, parse: UriParser)
    requires EcsDiscovery(roles, account, listDefs, defImages, parse).Success?
    ensures var jobs := EcsDiscovery(roles, account, listDefs, defImages, parse).value;
            var idx := ServicesRegistries(roles, listDefs, defImages, parse).value;
            var own: Repos := if account in Keys(idx) then Get(idx, account) else [];
            |jobs| == |own| &&
            forall k :: 0 <= k < |jobs| ==>
              jobs[k].registryId == account && jobs[k].repositoryName == own[k].0 &&
              jobs[k].images == BucketIdents(own[k].1) && NoDuplicates(jobs[k].images)
  {
    var sessions := Sessions(roles).value;
    var uris := Collected(sessions, listDefs, defImages);
    var idx := Index(uris, parse);
    IndexWellFormed(uris, parse);
    JobsOfOwnRegistry(idx, account);
    var own: Repos := if account in Keys(idx) then Get(idx, account) else [];
    RepoJobsShape(own, account);
    forall k | 0 <= k < |own|
      ensures NoDuplicates(BucketIdents(own[k].1))
    {
      GetAt(own, k);
      BucketIdentsDistinct(own[k].1);
    }
  }
}
