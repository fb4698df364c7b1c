/** Deciding which images of one repository to scan and starting the scans
    (ecr_scan_reporter/images_scanner.py). Calls to ECR are parameters:
    `describe` answers a describe-images call for a batch of image ids,
    `respond(i, a)` answers attempt a of the start-image-scan call for the
    i-th image of a dispatch, and the backoff sleeps are recorded in the trace instead of slept. */
module ImagesScanner {
  import opened Wrappers
  import opened Common
  import opened Durations

  const BatchChunkSize: nat := 21
  const SingleChunkSize: nat := 1
  const TriggerChunkSize: nat := 4
  const InitialTries: nat := 3
  const AttemptsMax: nat := 4
  const BackoffSeconds: nat := 10

  /** `keyisset(key, d)`: the key is present and its value is truthy; for a
      string that means non-empty. */
  predicate KeySet(v: Option<string>) { v.Some? && v.value != "" }

  /** The keys of an image dict that the scanner reads or writes. */
  datatype ImageRec = ImageRec(
    imageDigest: Option<string>,
    imageTag: Option<string>,
    imagePushedAt: Option<Timestamp>,
    vulnerabilitySourceUpdatedAt: Option<Timestamp>)

  /** An image id as sent to ECR: `{"imageDigest": ..., "imageTag": ...}`
      with each key present or not. */
  datatype ImageId = ImageId(imageDigest: Option<string>, imageTag: Option<string>)

  /** One entry of `imageDetails` in a describe-images answer. The scan
      summary's `vulnerabilitySourceUpdatedAt` is None when the summary is
      missing or empty or has no truthy value for that key. */
  datatype Detail = Detail(
    imageDigest: string,
    imagePushedAt: Timestamp,
    vulnerabilitySourceUpdatedAt: Option<Timestamp>)

  /** What a describe-images call gives: the details, the
      ImageNotFoundException the source catches, or any other exception,
      which propagates and ends the whole run. */
  datatype DescribeOutcome = Described(imageDetails: seq<Detail>) | ImageNotFound | DescribeFailed

  /** An image dict, updated in place by `update_image_info`. */
  class Image {
    var imageDigest: Option<string>
    var imageTag: Option<string>
    var imagePushedAt: Option<Timestamp>
    var vulnerabilitySourceUpdatedAt: Option<Timestamp>

    /** An image id as listed by list-images: no timestamps yet. */
    constructor (id: ImageId)
      ensures View() == ImageRec(id.imageDigest, id.imageTag, None, None)
    {
      imageDigest := id.imageDigest;
      imageTag := id.imageTag;
      imagePushedAt := None;
      vulnerabilitySourceUpdatedAt := None;
    }

    function View(): ImageRec
      reads this
    {
      ImageRec(imageDigest, imageTag, imagePushedAt, vulnerabilitySourceUpdatedAt)
    }
  }

  function Views(images: seq<Image>): (vs: seq<ImageRec>)
    reads images
    ensures |vs| == |images|
    ensures forall i :: 0 <= i < |images| ==> vs[i] == images[i].View()
  {
    seq(|images|, i reads images requires 0 <= i < |images| => images[i].View())
  }

  /** No dict occurs twice in the list. */
  predicate Distinct(images: seq<Image>) {
    forall i, j :: 0 <= i < j < |images| ==> images[i] != images[j]
  }

  // ---------------------------------------------------------------------
  // update_image_info / update_all_images_timestamp
  // ---------------------------------------------------------------------

  predicate DigestMatches(r: ImageRec, d: Detail) {
    KeySet(r.imageDigest) && r.imageDigest.value == d.imageDigest
  }

  /** The effect of `update_image_info(image, detail)` on the image. */
  function ApplyDetail(r: ImageRec, d: Detail): (r': ImageRec)
    ensures r'.imageDigest == r.imageDigest && r'.imageTag == r.imageTag
    ensures !DigestMatches(r, d) ==> r' == r
    ensures DigestMatches(r, d) ==> r'.imagePushedAt == Some(d.imagePushedAt)
    ensures DigestMatches(r, d) && d.vulnerabilitySourceUpdatedAt.Some? ==>
              r'.vulnerabilitySourceUpdatedAt == d.vulnerabilitySourceUpdatedAt
    ensures d.vulnerabilitySourceUpdatedAt.None? ==>
              r'.vulnerabilitySourceUpdatedAt == r.vulnerabilitySourceUpdatedAt
  {
    if !KeySet(r.imageDigest) && !KeySet(r.imageTag) then r
    else if KeySet(r.imageDigest) && r.imageDigest.value == d.imageDigest then
      var pushed := r.(imagePushedAt := Some(d.imagePushedAt));
      if d.vulnerabilitySourceUpdatedAt.Some? then
        pushed.(vulnerabilitySourceUpdatedAt := d.vulnerabilitySourceUpdatedAt)
      else pushed
    else r
  }

  method UpdateImageInfo(image: Image, detail: Detail)
    modifies image
    ensures image.View() == ApplyDetail(old(image.View()), detail)
  {
    if !KeySet(image.imageDigest) && !KeySet(image.imageTag) {
      return;
    }
    if KeySet(image.imageDigest) && image.imageDigest.value == detail.imageDigest {
      image.imagePushedAt := Some(detail.imagePushedAt);
      if detail.vulnerabilitySourceUpdatedAt.Some? {
        image.vulnerabilitySourceUpdatedAt := detail.vulnerabilitySourceUpdatedAt;
      }
    }
  }

  /** The image after every detail of one answer, in order. */
  function ApplyDetails(r: ImageRec, ds: seq<Detail>): ImageRec
    decreases |ds|
  {
    if |ds| == 0 then r else ApplyDetail(ApplyDetails(r, ds[..|ds| - 1]), ds[|ds| - 1])
  }

  /** Digest and tag are never changed, and an image no detail matches by
      digest (a tag-only image, one with neither key, or one whose digest is
      not in the answer) is left exactly as it was. */
  lemma {:induction false} ApplyDetailsKeepsIdentity(r: ImageRec, ds: seq<Detail>)
    ensures ApplyDetails(r, ds).imageDigest == r.imageDigest
    ensures ApplyDetails(r, ds).imageTag == r.imageTag
    ensures (forall i :: 0 <= i < |ds| ==> !DigestMatches(r, ds[i])) ==> ApplyDetails(r, ds) == r
    decreases |ds|
  {
    if |ds| > 0 {
      ApplyDetailsKeepsIdentity(r, ds[..|ds| - 1]);
    }
  }

  /** When details match the image's digest, the push time is the one of the
      last matching detail, and so is the vulnerability-source time when
      that detail carries one. */
  lemma {:induction false} ApplyDetailsLastMatch(r: ImageRec, ds: seq<Detail>, i: nat)
    requires i < |ds| && DigestMatches(r, ds[i])
    requires forall j :: i < j < |ds| ==> !DigestMatches(r, ds[j])
    ensures ApplyDetails(r, ds).imagePushedAt == Some(ds[i].imagePushedAt)
    ensures ds[i].vulnerabilitySourceUpdatedAt.Some? ==>
              ApplyDetails(r, ds).vulnerabilitySourceUpdatedAt == ds[i].vulnerabilitySourceUpdatedAt
    decreases |ds|
  {
    ApplyDetailsKeepsIdentity(r, ds[..|ds| - 1]);
    if i < |ds| - 1 {
      ApplyDetailsLastMatch(r, ds[..|ds| - 1], i);
    }
  }

  /** The vulnerability-source time is the one of the last detail that
      matches the digest and carries one. */
  lemma {:induction false} ApplyDetailsLastVuln(r: ImageRec, ds: seq<Detail>, i: nat)
    requires i < |ds| && DigestMatches(r, ds[i]) && ds[i].vulnerabilitySourceUpdatedAt.Some?
    requires forall j :: i < j < |ds| ==> !(DigestMatches(r, ds[j]) && ds[j].vulnerabilitySourceUpdatedAt.Some?)
    ensures ApplyDetails(r, ds).vulnerabilitySourceUpdatedAt == ds[i].vulnerabilitySourceUpdatedAt
    decreases |ds|
  {
    var n := |ds| - 1;
    ApplyDetailsKeepsIdentity(r, ds[..n]);
    if i < n {
      ApplyDetailsLastVuln(r, ds[..n], i);
    }
  }

  /** When no detail both matches the digest and carries a
      vulnerability-source time, the image keeps its own. */
  lemma {:induction false} ApplyDetailsNoVuln(r: ImageRec, ds: seq<Detail>)
    requires forall j :: 0 <= j < |ds| ==> !(DigestMatches(r, ds[j]) && ds[j].vulnerabilitySourceUpdatedAt.Some?)
    ensures ApplyDetails(r, ds).vulnerabilitySourceUpdatedAt == r.vulnerabilitySourceUpdatedAt
    decreases |ds|
  {
    if |ds| > 0 {
      var n := |ds| - 1;
      ApplyDetailsKeepsIdentity(r, ds[..n]);
      ApplyDetailsNoVuln(r, ds[..n]);
    }
  }

  function ChunkSize(batch: bool): nat {
    if batch then BatchChunkSize else SingleChunkSize
  }

  /** `imageIds=list(image)`: the ids of one chunk, as held by the dicts. */
  function Ids(recs: seq<ImageRec>): (ids: seq<ImageId>)
    ensures |ids| == |recs|
    ensures forall i :: 0 <= i < |recs| ==> ids[i] == ImageId(recs[i].imageDigest, recs[i].imageTag)
  {
    seq(|recs|, i requires 0 <= i < |recs| => ImageId(recs[i].imageDigest, recs[i].imageTag))
  }

  /** The answer to the describe-images call for chunk j. */
  function ChunkOutcome(recs: seq<ImageRec>, size: nat, describe: seq<ImageId> -> DescribeOutcome, j: nat): DescribeOutcome
    requires j < |Chunks(recs, size)|
  {
    describe(Ids(Chunks(recs, size)[j]))
  }

  /** Whether one of the calls for chunks 0 .. j-1 raised. */
  predicate FailedBefore(recs: seq<ImageRec>, size: nat, describe: seq<ImageId> -> DescribeOutcome, j: nat)
    requires j <= |Chunks(recs, size)|
  {
    j > 0 && (FailedBefore(recs, size, describe, j - 1) || ChunkOutcome(recs, size, describe, j - 1).DescribeFailed?)
  }

  lemma {:induction false} FailedBeforeLater(recs: seq<ImageRec>, size: nat, describe: seq<ImageId> -> DescribeOutcome, c: nat, j: nat)
    requires c < j <= |Chunks(recs, size)|
    requires ChunkOutcome(recs, size, describe, c).DescribeFailed?
    ensures FailedBefore(recs, size, describe, j)
    decreases j
  {
    if j - 1 > c {
      FailedBeforeLater(recs, size, describe, c, j - 1);
    }
  }

  function Refreshed(r: ImageRec, o: DescribeOutcome): ImageRec {
    match o
    case Described(ds) => ApplyDetails(r, ds)
    case _ => r
  }

  /** Image k after `update_all_images_timestamp`: refreshed by the answer
      for its own chunk, unless an earlier chunk's call raised. */
  function UpdatedAt(recs: seq<ImageRec>, size: nat, describe: seq<ImageId> -> DescribeOutcome, k: nat): ImageRec
    requires size >= 1 && k < |recs|
  {
    ChunkOfIndex(recs, size, k);
    var j := k / size;
    if FailedBefore(recs, size, describe, j) then recs[k]
    else Refreshed(recs[k], ChunkOutcome(recs, size, describe, j))
  }

  lemma DivOfChunkMember(k: int, size: int, c: int)
    requires size >= 1 && c >= 0 && c * size <= k < c * size + size
    ensures k / size == c
  {
    MulSucc(c + 1, size);
    DivOrder(k, size, c + 1);
    if c > 0 {
      MulSucc(c, size);
      DivOrder(k, size, c - 1);
    }
  }

  lemma DivOrder(k: int, size: int, c: int)
    requires size >= 1 && c >= 0 && k >= 0
    ensures k < c * size ==> k / size < c
    ensures k >= c * size + size ==> k / size > c
  {
  }

  /** Index k lies in chunk k / size. */
  lemma ChunkOfIndex<T>(s: seq<T>, size: nat, k: nat)
    requires size >= 1 && k < |s|
    ensures k / size < |Chunks(s, size)|
  {
    ChunksCount(s, size);
    DivOrder(k, size, |Chunks(s, size)|);
  }

  /** The body of the loop over one chunk: every detail of the answer, in
      order, offered to every image of the chunk. */
  method RefreshChunk(chunk: seq<Image>, ds: seq<Detail>)
    requires Distinct(chunk)
    modifies chunk
    ensures forall i :: 0 <= i < |chunk| ==> chunk[i].View() == ApplyDetails(old(chunk[i].View()), ds)
  {
    var d := 0;
    while d < |ds|
      invariant 0 <= d <= |ds|
      invariant forall i :: 0 <= i < |chunk| ==> chunk[i].View() == ApplyDetails(old(chunk[i].View()), ds[..d])
    {
      var i := 0;
      while i < |chunk|
        invariant 0 <= i <= |chunk|
        invariant forall j :: 0 <= j < i ==> chunk[j].View() == ApplyDetails(old(chunk[j].View()), ds[..d + 1])
        invariant forall j :: i <= j < |chunk| ==> chunk[j].View() == ApplyDetails(old(chunk[j].View()), ds[..d])
      {
        assert ds[..d + 1][..d] == ds[..d];
        UpdateImageInfo(chunk[i], ds[d]);
        i := i + 1;
      }
      d := d + 1;
    }
    assert ds[..|ds|] == ds;
  }

  /** An image of chunk c is refreshed by chunk c's answer unless an
      earlier call raised. */
  lemma UpdatedInChunk(recs: seq<ImageRec>, size: nat, describe: seq<ImageId> -> DescribeOutcome, c: nat, k: nat)
    requires size >= 1 && c * size <= k < Min(c * size + size, |recs|) && c < |Chunks(recs, size)|
    ensures UpdatedAt(recs, size, describe, k) ==
              if FailedBefore(recs, size, describe, c) then recs[k]
              else Refreshed(recs[k], ChunkOutcome(recs, size, describe, c))
  {
    DivOfChunkMember(k, size, c);
  }

  /** Every image after a chunk whose call raised is left as it was. */
  lemma UpdatedAfterFailure(recs: seq<ImageRec>, size: nat, describe: seq<ImageId> -> DescribeOutcome, c: nat, k: nat)
    requires size >= 1 && c * size + size <= k < |recs| && c < |Chunks(recs, size)|
    requires ChunkOutcome(recs, size, describe, c).DescribeFailed?
    ensures UpdatedAt(recs, size, describe, k) == recs[k]
  {
    ChunkOfIndex(recs, size, k);
    DivOrder(k, size, c);
    FailedBeforeLater(recs, size, describe, c, k / size);
  }

  /** The try block for one chunk (`chunk` is images[a..b]): the
      describe-images call, then the refresh of the chunk's images from its
      answer; no other image changes. `failed` stands for an exception
      other than ImageNotFoundException. */
  method DescribeChunk(images: seq<Image>, chunk: seq<Image>, a: nat, b: nat,
                       describe: seq<ImageId> -> DescribeOutcome) returns (failed: bool)
    requires Distinct(images) && a <= b <= |images| && chunk == images[a..b]
    modifies chunk
    ensures failed <==> describe(Ids(old(Views(chunk)))).DescribeFailed?
    ensures forall k :: a <= k < b ==>
              images[k].View() == Refreshed(old(images[k].View()), describe(Ids(old(Views(chunk)))))
    ensures forall k :: 0 <= k < a || b <= k < |images| ==> images[k].View() == old(images[k].View())
  {
    forall k | 0 <= k < a || b <= k < |images|
      ensures images[k] !in chunk
    {
    }
    var res := describe(Ids(Views(chunk)));
    failed := res.DescribeFailed?;
    if res.Described? {
      RefreshChunk(chunk, res.imageDetails);
      forall k | a <= k < b
        ensures images[k].View() == Refreshed(old(images[k].View()), res)
      {
        assert images[k] == chunk[k - a];
      }
    }
  }

  /** `update_all_images_timestamp`: one describe-images call per chunk of
      21 images (batch) or of 1, and every detail of the answer offered to
      every image of the chunk. An ImageNotFound answer leaves the chunk as
      it is; any other failure ends the run (`ok` false) with the later
      chunks untouched. */
  method UpdateAllImagesTimestamp(images: seq<Image>, batch: bool, describe: seq<ImageId> -> DescribeOutcome)
      returns (ok: bool)
    requires Distinct(images)
    modifies images
    ensures ok <==> !FailedBefore(old(Views(images)), ChunkSize(batch), describe, |Chunks(old(Views(images)), ChunkSize(batch))|)
    ensures forall k :: 0 <= k < |images| ==>
              images[k].View() == UpdatedAt(old(Views(images)), ChunkSize(batch), describe, k)
  {
    var size := ChunkSize(batch);
    ghost var recs := Views(images);
    var chunks := ChunkedIterable(images, size);
    ChunksSameCount(images, recs, size);
    ChunksCount(images, size);
    var c := 0;
    ghost var pos := 0;
    while c < |chunks|
      invariant 0 <= c <= |chunks| == |Chunks(recs, size)|
      invariant 0 <= pos <= |images|
      invariant c < |chunks| ==> pos == c * size
      invariant c == |chunks| ==> pos == |images|
      invariant !FailedBefore(recs, size, describe, c)
      invariant forall k :: 0 <= k < pos ==> images[k].View() == UpdatedAt(recs, size, describe, k)
      invariant forall k :: pos <= k < |images| ==> images[k].View() == recs[k]
    {
      ChunkAt(images, size, c);
      ChunkAt(recs, size, c);
      var a := c * size;
      var b := Min(a + size, |images|);
      var chunk := chunks[c];
      assert chunk == images[a..b];
      assert Views(chunk) == Chunks(recs, size)[c];
      ghost var outcome := ChunkOutcome(recs, size, describe, c);
      assert describe(Ids(Views(chunk))) == outcome;
      var failed := DescribeChunk(images, chunk, a, b, describe);
      forall k | a <= k < b
        ensures images[k].View() == UpdatedAt(recs, size, describe, k)
      {
        UpdatedInChunk(recs, size, describe, c, k);
      }
      if failed {
        ok := false;
        FailedBeforeLater(recs, size, describe, c, |chunks|);
        forall k | b <= k < |images|
          ensures images[k].View() == UpdatedAt(recs, size, describe, k)
        {
          UpdatedAfterFailure(recs, size, describe, c, k);
        }
        return;
      }
      NextChunkStart(images, size, c);
      c := c + 1;
      pos := b;
    }
    ok := true;
  }

  // ---------------------------------------------------------------------
  // define_images_to_scan
  // ---------------------------------------------------------------------

  /** The timestamp checkpoint after the loop has seen `recs`: an image with a
      vulnerability-source time makes that time the checkpoint; otherwise,
      while there is no checkpoint yet, an image's push time becomes it. */
  function Checkpoint(recs: seq<ImageRec>): Option<Timestamp>
    decreases |recs|
  {
    if |recs| == 0 then None
    else
      var prev := Checkpoint(recs[..|recs| - 1]);
      var r := recs[|recs| - 1];
      if r.vulnerabilitySourceUpdatedAt.Some? then r.vulnerabilitySourceUpdatedAt
      else if prev.None? && r.imagePushedAt.Some? then r.imagePushedAt
      else prev
  }

  /** One more image: the rule applied to the checkpoint of the prefix. */
  lemma CheckpointStep(recs: seq<ImageRec>, i: nat)
    requires i < |recs|
    ensures var prev := Checkpoint(recs[..i]);
            Checkpoint(recs[..i + 1]) ==
              if recs[i].vulnerabilitySourceUpdatedAt.Some? then recs[i].vulnerabilitySourceUpdatedAt
              else if prev.None? && recs[i].imagePushedAt.Some? then recs[i].imagePushedAt
              else prev
  {
    assert recs[..i + 1][..i] == recs[..i];
  }

  /** Image i is selected: the checkpoint once it has been seen is older
      than the cutoff. */
  predicate Due(recs: seq<ImageRec>, cutoff: Timestamp, i: nat)
    requires i < |recs|
  {
    var cp := Checkpoint(recs[..i + 1]);
    cp.Some? && cp.value < cutoff
  }

  function DueMask(recs: seq<ImageRec>, cutoff: Timestamp): (mask: seq<bool>)
    ensures |mask| == |recs|
    ensures forall i :: 0 <= i < |recs| ==> (mask[i] <==> Due(recs, cutoff, i))
  {
    seq(|recs|, i requires 0 <= i < |recs| => Due(recs, cutoff, i))
  }

  /** The elements of `s` whose flag is set, in order. */
  function Pick<T>(s: seq<T>, keep: seq<bool>): seq<T>
    requires |keep| == |s|
    decreases |s|
  {
    if |s| == 0 then []
    else
      var n := |s| - 1;
      Pick(s[..n], keep[..n]) + (if keep[n] then [s[n]] else [])
  }

  /** What is kept is exactly the flagged elements of the input, and never
      more of them than the input has. */
  lemma {:induction false} PickMembers<T>(s: seq<T>, keep: seq<bool>)
    requires |keep| == |s|
    ensures forall x :: x in Pick(s, keep) ==> exists i :: 0 <= i < |s| && keep[i] && s[i] == x
    ensures forall i :: 0 <= i < |s| && keep[i] ==> s[i] in Pick(s, keep)
    ensures |Pick(s, keep)| <= |s|
    decreases |s|
  {
    if |s| > 0 {
      var n := |s| - 1;
      PickMembers(s[..n], keep[..n]);
      forall x | x in Pick(s, keep)
        ensures exists i :: 0 <= i < |s| && keep[i] && s[i] == x
      {
        if x in Pick(s[..n], keep[..n]) {
          var i :| 0 <= i < n && keep[..n][i] && s[..n][i] == x;
          assert keep[i] && s[i] == x;
        } else {
          assert keep[n] && s[n] == x;
        }
      }
      forall i | 0 <= i < |s| && keep[i]
        ensures s[i] in Pick(s, keep)
      {
        if i < n {
          assert s[..n][i] == s[i] && keep[..n][i];
        }
      }
    }
  }

  /** Picking keeps the order: the picks of a first part come before the
      picks of the rest. */
  lemma {:induction false} PickAppend<T>(a: seq<T>, ka: seq<bool>, b: seq<T>, kb: seq<bool>)
    requires |ka| == |a| && |kb| == |b|
    ensures Pick(a + b, ka + kb) == Pick(a, ka) + Pick(b, kb)
    decreases |b|
  {
    if |b| == 0 {
      assert a + b == a && ka + kb == ka;
    } else {
      var n := |b| - 1;
      assert (a + b)[..|a + b| - 1] == a + b[..n];
      assert (ka + kb)[..|ka + kb| - 1] == ka + kb[..n];
      PickAppend(a, ka, b[..n], kb[..n]);
    }
  }

  /** With every flag set the input comes back whole and in order; with
      none set nothing is kept. */
  lemma {:induction false} PickAllOrNone<T>(s: seq<T>, keep: seq<bool>)
    requires |keep| == |s|
    ensures (forall i :: 0 <= i < |s| ==> keep[i]) ==> Pick(s, keep) == s
    ensures (forall i :: 0 <= i < |s| ==> !keep[i]) ==> Pick(s, keep) == []
    decreases |s|
  {
    if |s| > 0 {
      var n := |s| - 1;
      PickAllOrNone(s[..n], keep[..n]);
      if forall i :: 0 <= i < |s| ==> keep[i] {
        assert forall i :: 0 <= i < n ==> keep[..n][i];
        assert s[..n] + [s[n]] == s;
      }
      if forall i :: 0 <= i < |s| ==> !keep[i] {
        assert forall i :: 0 <= i < n ==> !keep[..n][i];
      }
    }
  }

  /** One more element: the picks of the longer prefix. */
  lemma PickStep<T>(s: seq<T>, keep: seq<bool>, i: nat)
    requires |keep| == |s| && i < |s|
    ensures Pick(s[..i + 1], keep[..i + 1]) == Pick(s[..i], keep[..i]) + (if keep[i] then [s[i]] else [])
  {
    assert s[..i + 1][..i] == s[..i];
    assert keep[..i + 1][..i] == keep[..i];
  }

  /** Picking images and then reading them is reading them and then picking. */
  lemma {:induction false} PickViews(images: seq<Image>, keep: seq<bool>)
    requires |keep| == |images|
    ensures Views(Pick(images, keep)) == Pick(Views(images), keep)
    decreases |images|
  {
    if |images| > 0 {
      var n := |images| - 1;
      PickViews(images[..n], keep[..n]);
      assert Views(images)[..n] == Views(images[..n]);
      assert Views(Pick(images, keep)) == Views(Pick(images[..n], keep[..n])) + Views(if keep[n] then [images[n]] else []);
    }
  }

  /** Where the loop reads the checkpoint from once it has a value. */
  datatype ScanSource = PushedAtSource | VulnSource

  /** `define_images_to_scan`: walk the images in order, keep the checkpoint
      and collect every image seen while the checkpoint is older than the
      cutoff given by the duration (`durationOverride`, or the environment
      value `env`). */
  method DefineImagesToScan(images: seq<Image>, durationOverride: Option<string>, env: Option<string>,
                            now: Timestamp, monthsBack: (Timestamp, nat) -> Timestamp)
      returns (toScan: seq<Image>)
    ensures toScan == Pick(images, DueMask(Views(images), GetDuration(durationOverride, env, now, monthsBack)))
  {
    var checkpoint: Option<Timestamp> := None;
    var delta := GetDuration(durationOverride, env, now, monthsBack);
    toScan := [];
    var scanSource := PushedAtSource;
    ghost var recs := Views(images);
    ghost var mask := DueMask(recs, delta);
    var i := 0;
    while i < |images|
      invariant 0 <= i <= |images|
      invariant checkpoint == Checkpoint(recs[..i])
      invariant scanSource == VulnSource ==> checkpoint.Some?
      invariant toScan == Pick(images[..i], mask[..i])
    {
      var image := images[i];
      CheckpointStep(recs, i);
      assert recs[i] == image.View();
      if image.vulnerabilitySourceUpdatedAt.Some? {
        scanSource := VulnSource;
        checkpoint := image.vulnerabilitySourceUpdatedAt;
      }
      if checkpoint.None? && image.imagePushedAt.Some? {
        match scanSource
        case PushedAtSource => checkpoint := image.imagePushedAt;
        case VulnSource => assert false;
      }
      PickStep(images, mask, i);
      if checkpoint.Some? && checkpoint.value < delta {
        toScan := toScan + [image];
      }
      i := i + 1;
    }
    assert images[..i] == images && mask[..i] == mask;
  }

  /** The checkpoint is the vulnerability-source time of the last image that
      has one. */
  lemma {:induction false} CheckpointIsLastVuln(recs: seq<ImageRec>, i: nat)
    requires i < |recs| && recs[i].vulnerabilitySourceUpdatedAt.Some?
    requires forall j :: i < j < |recs| ==> recs[j].vulnerabilitySourceUpdatedAt.None?
    ensures Checkpoint(recs) == recs[i].vulnerabilitySourceUpdatedAt
    decreases |recs|
  {
    if i < |recs| - 1 {
      CheckpointIsLastVuln(recs[..|recs| - 1], i);
    }
  }

  /** With no vulnerability-source time anywhere, the checkpoint is the push
      time of the first image that has one. */
  lemma {:induction false} CheckpointIsFirstPushed(recs: seq<ImageRec>, i: nat)
    requires i < |recs| && recs[i].imagePushedAt.Some?
    requires forall j :: 0 <= j < |recs| ==> recs[j].vulnerabilitySourceUpdatedAt.None?
    requires forall j :: 0 <= j < i ==> recs[j].imagePushedAt.None?
    ensures Checkpoint(recs) == recs[i].imagePushedAt
    decreases |recs|
  {
    if i < |recs| - 1 {
      CheckpointIsFirstPushed(recs[..|recs| - 1], i);
    } else {
      CheckpointNone(recs[..i]);
    }
  }

  /** There is no checkpoint exactly while no image seen so far has a
      timestamp; such images are never selected. */
  lemma {:induction false} CheckpointNone(recs: seq<ImageRec>)
    ensures Checkpoint(recs).None? <==>
              forall j :: 0 <= j < |recs| ==>
                recs[j].vulnerabilitySourceUpdatedAt.None? && recs[j].imagePushedAt.None?
    decreases |recs|
  {
    if |recs| > 0 {
      var n := |recs| - 1;
      CheckpointNone(recs[..n]);
      assert forall j :: 0 <= j < n ==> recs[..n][j] == recs[j];
    }
  }

  /** Once there is a checkpoint there always is one. */
  lemma {:induction false} CheckpointSticky(recs: seq<ImageRec>, i: nat)
    requires i <= |recs| && Checkpoint(recs[..i]).Some?
    ensures Checkpoint(recs).Some?
  {
    assert forall j :: 0 <= j < i ==> recs[..i][j] == recs[j];
    CheckpointNone(recs[..i]);
    CheckpointNone(recs);
  }

  /** When every image carries a vulnerability-source time the selection is
      per image: an image is selected exactly when its own time is older
      than the cutoff. */
  lemma AllScannedSelectsOwnAge(recs: seq<ImageRec>, cutoff: Timestamp, i: nat)
    requires i < |recs|
    requires forall j :: 0 <= j < |recs| ==> recs[j].vulnerabilitySourceUpdatedAt.Some?
    ensures Due(recs, cutoff, i) <==> recs[i].vulnerabilitySourceUpdatedAt.value < cutoff
  {
    CheckpointIsLastVuln(recs[..i + 1], i);
  }

  /** The selection depends on the order of the images: an image pushed 10
      days ago followed by one whose vulnerability source was updated 3 days
      ago selects the first only; in the other order nothing is selected. */
  lemma SelectionDependsOnOrder(now: Timestamp, monthsBack: (Timestamp, nat) -> Timestamp)
    ensures var day := HoursPerDay * SecondsPerHour;
            var cutoff := GetDuration(None, None, now, monthsBack);
            var a := ImageRec(Some("sha256:a"), None, Some(now - 10 * day), None);
            var b := ImageRec(Some("sha256:b"), None, Some(now - 20 * day), Some(now - 3 * day));
            DueMask([a, b], cutoff) == [true, false] && DueMask([b, a], cutoff) == [false, false]
  {
    DefaultIsSevenDays(None);
    var day := HoursPerDay * SecondsPerHour;
    var cutoff := GetDuration(None, None, now, monthsBack);
    assert cutoff == now - 7 * day;
    var a := ImageRec(Some("sha256:a"), None, Some(now - 10 * day), None);
    var b := ImageRec(Some("sha256:b"), None, Some(now - 20 * day), Some(now - 3 * day));
    assert [a, b][..1] == [a] && [a, b][..2] == [a, b];
    assert [b, a][..1] == [b] && [b, a][..2] == [b, a];
    assert [a, b][..1][..0] == [] && [a, b][..2][..1] == [a];
    assert [b, a][..1][..0] == [] && [b, a][..2][..1] == [b];
    assert Checkpoint([a]) == a.imagePushedAt;
    assert [a, b][|[a, b]| - 1] == b;
    assert Checkpoint([a, b]) == b.vulnerabilitySourceUpdatedAt;
    assert Checkpoint([b]) == b.vulnerabilitySourceUpdatedAt && Checkpoint([b, a]) == b.vulnerabilitySourceUpdatedAt;
    assert Due([a, b], cutoff, 0) && !Due([a, b], cutoff, 1);
    assert !Due([b, a], cutoff, 0) && !Due([b, a], cutoff, 1);
  }

  // ---------------------------------------------------------------------
  // trigger_images_scan
  // ---------------------------------------------------------------------

  /** What a start-image-scan call gives: success, or one of the exceptions
      the source handles, or any other exception, which propagates. */
  datatype ScanOutcome = ScanStarted | LimitExceeded | ImageNotFoundError | UnsupportedImageType | OtherScanError

  /** What the dispatch does with the outside world, in order. */
  datatype Event = StartScan(imageId: ImageId) | Sleep(seconds: nat)

  /** The events of a dispatch and whether it ended without an exception. */
  datatype Run = Run(trace: seq<Event>, ok: bool)

  /** An image that has a digest or a tag. */
  predicate Addressable(r: ImageRec) { KeySet(r.imageDigest) || KeySet(r.imageTag) }

  /** The `imageId` sent for an image: exactly the keys that are set. */
  function ScanId(r: ImageRec): (id: ImageId)
    ensures id.imageDigest.Some? <==> KeySet(r.imageDigest)
    ensures id.imageTag.Some? <==> KeySet(r.imageTag)
    ensures id.imageDigest.Some? ==> id.imageDigest == r.imageDigest
    ensures id.imageTag.Some? ==> id.imageTag == r.imageTag
  {
    ImageId(if KeySet(r.imageDigest) then r.imageDigest else None,
            if KeySet(r.imageTag) then r.imageTag else None)
  }

  /** `respond(i, a)` is the answer to attempt a for the i-th image to scan. */
  type Responder = (nat, nat) -> ScanOutcome

  /** The retry loop for image i with `tries` tries left: on a throttling
      answer, one try fewer and a sleep of (4 - tries left) * 10 seconds. */
  function Attempts(respond: Responder, i: nat, id: ImageId, tries: nat): Run
    requires tries <= InitialTries
    decreases tries
  {
    if tries == 0 then Run([], true)
    else
      match respond(i, InitialTries - tries)
      case ScanStarted => Run([StartScan(id)], true)
      case ImageNotFoundError => Run([StartScan(id)], true)
      case UnsupportedImageType => Run([StartScan(id)], true)
      case OtherScanError => Run([StartScan(id)], false)
      case LimitExceeded =>
        var rest := Attempts(respond, i, id, tries - 1);
        Run([StartScan(id), Sleep((AttemptsMax - (tries - 1)) * BackoffSeconds)] + rest.trace, rest.ok)
  }

  /** The retry loop as the source starts it, with three tries. */
  function ScanAttempts(respond: Responder, i: nat, id: ImageId): Run {
    var tries: nat := InitialTries;
    Attempts(respond, i, id, tries)
  }

  /** One image of the loop: skipped (with a warning) when it has neither
      key, else the retry loop with the keys that are set. */
  function ImageRun(r: ImageRec, i: nat, respond: Responder): Run {
    if !Addressable(r) then Run([], true) else ScanAttempts(respond, i, ScanId(r))
  }

  /** The images in order; an unhandled exception ends the dispatch. */
  function Dispatch(recs: seq<ImageRec>, respond: Responder): Run
    decreases |recs|
  {
    if |recs| == 0 then Run([], true)
    else
      var n := |recs| - 1;
      var prev := Dispatch(recs[..n], respond);
      if !prev.ok then prev
      else
        var r := ImageRun(recs[n], n, respond);
        Run(prev.trace + r.trace, r.ok)
  }

  /** The `while tries` loop for one image. */
  method StartImageScan(respond: Responder, i: nat, id: ImageId) returns (events: seq<Event>, ok: bool)
    ensures Run(events, ok) == ScanAttempts(respond, i, id)
  {
    var tries: nat := InitialTries;
    ghost var all := Attempts(respond, i, id, tries);
    events := [];
    while tries > 0
      invariant tries <= InitialTries
      invariant all == Run(events + Attempts(respond, i, id, tries).trace, Attempts(respond, i, id, tries).ok)
    {
      match respond(i, InitialTries - tries)
      case ScanStarted =>
        events := events + [StartScan(id)];
        break;
      case LimitExceeded =>
        ghost var rest := Attempts(respond, i, id, tries - 1).trace;
        var step := [StartScan(id), Sleep((AttemptsMax - (tries - 1)) * BackoffSeconds)];
        assert (events + step) + rest == events + (step + rest);
        tries := tries - 1;
        events := events + step;
      case ImageNotFoundError =>
        events := events + [StartScan(id)];
        tries := 0;
      case UnsupportedImageType =>
        events := events + [StartScan(id)];
        tries := 0;
      case OtherScanError =>
        return events + [StartScan(id)], false;
    }
    ok := true;
  }

  /** An unhandled exception is final: later images add nothing. */
  lemma {:induction false} DispatchStopsAfterFailure(recs: seq<ImageRec>, respond: Responder, i: nat)
    requires i <= |recs| && !Dispatch(recs[..i], respond).ok
    ensures Dispatch(recs, respond) == Dispatch(recs[..i], respond)
    decreases |recs|
  {
    if i < |recs| {
      var n := |recs| - 1;
      assert recs[..n][..i] == recs[..i];
      DispatchStopsAfterFailure(recs[..n], respond, i);
    } else {
      assert recs[..i] == recs;
    }
  }

  /** One more image: the dispatch of a prefix that ended without an
      unhandled exception, followed by that image's run; when that run ends
      in an exception, it is also the dispatch of any longer prefix. */
  lemma DispatchStep(recs: seq<ImageRec>, respond: Responder, k: nat,
                     before: seq<Event>, events: seq<Event>, ok: bool)
    requires k < |recs| && Run(before, true) == Dispatch(recs[..k], respond)
    requires Run(events, ok) == ImageRun(recs[k], k, respond)
    ensures ok ==> Dispatch(recs[..k + 1], respond) == Run(before + events, true)
    ensures !ok ==> Dispatch(recs, respond) == Run(before + events, false)
  {
    assert recs[..k + 1][..k] == recs[..k];
    if !ok {
      DispatchStopsAfterFailure(recs, respond, k + 1);
    }
  }

  /** The body of the loop for one image, the i-th to scan. */
  method TriggerImage(image: Image, i: nat, respond: Responder) returns (events: seq<Event>, ok: bool)
    ensures Run(events, ok) == ImageRun(image.View(), i, respond)
  {
    if !KeySet(image.imageDigest) && !KeySet(image.imageTag) {
      return [], true;
    }
    var imageId := ImageId(if KeySet(image.imageDigest) then image.imageDigest else None,
                           if KeySet(image.imageTag) then image.imageTag else None);
    events, ok := StartImageScan(respond, i, imageId);
  }

  /** The loop over the images of one chunk, which starts at index `pos`
      of the images to scan: the trace so far extended with the chunk's
      events, and whether no unhandled exception ended it (which ends the
      whole dispatch). */
  method TriggerChunk(chunk: seq<Image>, pos: nat, respond: Responder,
                      ghost recs: seq<ImageRec>, trace0: seq<Event>)
      returns (trace: seq<Event>, ok: bool)
    requires pos + |chunk| <= |recs|
    requires forall j :: 0 <= j < |chunk| ==> chunk[j].View() == recs[pos + j]
    requires Run(trace0, true) == Dispatch(recs[..pos], respond)
    ensures ok ==> Run(trace, true) == Dispatch(recs[..pos + |chunk|], respond)
    ensures !ok ==> Run(trace, false) == Dispatch(recs, respond)
  {
    trace := trace0;
    var j := 0;
    while j < |chunk|
      invariant 0 <= j <= |chunk|
      invariant Run(trace, true) == Dispatch(recs[..pos + j], respond)
    {
      var events, imageOk := TriggerImage(chunk[j], pos + j, respond);
      DispatchStep(recs, respond, pos + j, trace, events, imageOk);
      trace := trace + events;
      if !imageOk {
        return trace, false;
      }
      j := j + 1;
    }
    ok := true;
  }

  /** The images of a slice, read one by one, are the slice of the views. */
  lemma ChunkViews(images: seq<Image>, chunk: seq<Image>, a: nat, b: nat)
    requires a <= b <= |images| && chunk == images[a..b]
    ensures forall j :: 0 <= j < |chunk| ==> chunk[j].View() == Views(images)[a + j]
  {
  }

  /** `trigger_images_scan`: the images in chunks of 4, each addressable
      image through the retry loop; an unhandled exception ends the call. */
  method TriggerImagesScan(images: seq<Image>, respond: Responder) returns (trace: seq<Event>, ok: bool)
    ensures Run(trace, ok) == Dispatch(Views(images), respond)
  {
    ghost var recs := Views(images);
    var chunks := ChunkedIterable(images, TriggerChunkSize);
    ChunksCount(images, TriggerChunkSize);
    trace := [];
    var c := 0;
    var pos := 0;
    while c < |chunks|
      invariant 0 <= c <= |chunks|
      invariant 0 <= pos <= |images|
      invariant c < |chunks| ==> pos == c * TriggerChunkSize
      invariant c == |chunks| ==> pos == |images|
      invariant Run(trace, true) == Dispatch(recs[..pos], respond)
    {
      ChunkAt(images, TriggerChunkSize, c);
      NextChunkStart(images, TriggerChunkSize, c);
      var chunk := chunks[c];
      var end := Min(pos + TriggerChunkSize, |images|);
      ChunkViews(images, chunk, pos, end);
      var chunkOk;
      trace, chunkOk := TriggerChunk(chunk, pos, respond, recs, trace);
      if !chunkOk {
        return trace, false;
      }
      c := c + 1;
      pos := end;
    }
    assert recs[..pos] == recs;
    ok := true;
  }

  /** Number of start-image-scan calls in a trace. */
  function StartCount(trace: seq<Event>): nat
    decreases |trace|
  {
    if |trace| == 0 then 0 else (if trace[0].StartScan? then 1 else 0) + StartCount(trace[1..])
  }

  /** Total seconds slept in a trace. */
  function SleepTotal(trace: seq<Event>): nat
    decreases |trace|
  {
    if |trace| == 0 then 0 else (if trace[0].Sleep? then trace[0].seconds else 0) + SleepTotal(trace[1..])
  }

  lemma {:induction false} CountsAppend(a: seq<Event>, b: seq<Event>)
    ensures StartCount(a + b) == StartCount(a) + StartCount(b)
    ensures SleepTotal(a + b) == SleepTotal(a) + SleepTotal(b)
    decreases |a|
  {
    if |a| > 0 {
      assert (a + b)[1..] == a[1..] + b;
      CountsAppend(a[1..], b);
    } else {
      assert a + b == b;
    }
  }

  /** The backoff a retry loop with `tries` tries left can still sleep. */
  function MaxBackoff(tries: nat): nat
    requires tries <= InitialTries
  {
    if tries == 0 then 0 else (AttemptsMax - (tries - 1)) * BackoffSeconds + MaxBackoff(tries - 1)
  }

  /** One image costs at least one and at most `tries` calls, and the
      sleeps add up to at most 20 + 30 + 40 seconds for the three tries of
      the source. */
  lemma {:induction false} AttemptsCounts(respond: Responder, i: nat, id: ImageId, tries: nat)
    requires 1 <= tries <= InitialTries
    ensures 1 <= StartCount(Attempts(respond, i, id, tries).trace) <= tries
    ensures SleepTotal(Attempts(respond, i, id, tries).trace) <= MaxBackoff(tries) <= 90
    decreases tries
  {
    var run := Attempts(respond, i, id, tries);
    assert MaxBackoff(tries) <= MaxBackoff(3) == 90 by {
      assert MaxBackoff(1) == 40 && MaxBackoff(2) == 70;
    }
    if respond(i, InitialTries - tries) == LimitExceeded {
      var head := [StartScan(id), Sleep((AttemptsMax - (tries - 1)) * BackoffSeconds)];
      assert head[1..][1..] == [];
      assert StartCount(head[1..]) == 0 && SleepTotal(head[1..]) == head[1].seconds;
      assert StartCount(head) == 1 && SleepTotal(head) == (AttemptsMax - (tries - 1)) * BackoffSeconds;
      var rest := Attempts(respond, i, id, tries - 1);
      assert run.trace == head + rest.trace;
      CountsAppend(head, rest.trace);
      if tries > 1 {
        AttemptsCounts(respond, i, id, tries - 1);
      }
    } else {
      assert run.trace == [StartScan(id)];
      assert StartCount(run.trace) == 1 && SleepTotal(run.trace) == 0;
    }
  }

  /** The trace of one image alternates a call and a sleep, and every sleep
      is between 20 and 40 seconds. */
  lemma {:induction false} AttemptsShape(respond: Responder, i: nat, id: ImageId, tries: nat)
    requires tries <= InitialTries
    ensures forall k :: 0 <= k < |Attempts(respond, i, id, tries).trace| ==>
              (Attempts(respond, i, id, tries).trace[k] == StartScan(id) <==> k % 2 == 0)
    ensures forall e :: e in Attempts(respond, i, id, tries).trace && e.Sleep? ==> 20 <= e.seconds <= 40
    decreases tries
  {
    if tries > 0 && respond(i, InitialTries - tries) == LimitExceeded {
      var run := Attempts(respond, i, id, tries);
      var rest := Attempts(respond, i, id, tries - 1);
      AttemptsShape(respond, i, id, tries - 1);
      forall k | 2 <= k < |run.trace|
        ensures run.trace[k] == rest.trace[k - 2]
      {
      }
    }
  }

  /** Constant throttling: the call is made three times, with sleeps of 20,
      30 and 40 seconds, and the image is then given up without an error. */
  lemma ConstantThrottling(respond: Responder, i: nat, id: ImageId)
    requires forall a :: respond(i, a) == LimitExceeded
    ensures Attempts(respond, i, id, InitialTries)
            == Run([StartScan(id), Sleep(20), StartScan(id), Sleep(30), StartScan(id), Sleep(40)], true)
  {
    assert Attempts(respond, i, id, 1) == Run([StartScan(id), Sleep(40)], true);
    assert Attempts(respond, i, id, 2) == Run([StartScan(id), Sleep(30)] + [StartScan(id), Sleep(40)], true);
  }

  /** A started scan, a missing image or an unsupported image type ends the
      retry loop after one call; any other exception fails the run. */
  lemma TerminalAnswers(respond: Responder, i: nat, id: ImageId)
    requires respond(i, 0) != LimitExceeded
    ensures Attempts(respond, i, id, InitialTries).trace == [StartScan(id)]
    ensures Attempts(respond, i, id, InitialTries).ok <==> respond(i, 0) != OtherScanError
  {
  }

  /** The start-scan requests of a run without throttling or errors: one
      per image that has a digest or a tag, in order. */
  function ScanRequests(recs: seq<ImageRec>): (reqs: seq<Event>)
    decreases |recs|
  {
    if |recs| == 0 then []
    else
      var n := |recs| - 1;
      ScanRequests(recs[..n]) + (if Addressable(recs[n]) then [StartScan(ScanId(recs[n]))] else [])
  }

  lemma {:induction false} DispatchAllStarted(recs: seq<ImageRec>, respond: Responder)
    requires forall i, a :: respond(i, a) == ScanStarted
    ensures Dispatch(recs, respond) == Run(ScanRequests(recs), true)
    decreases |recs|
  {
    if |recs| > 0 {
      DispatchAllStarted(recs[..|recs| - 1], respond);
    }
  }

  /** Every call of a dispatch is for an image of the list that has a digest
      or a tag, with the keys of that image that are set, and there are at
      most 3·n calls in all for n images (`DispatchPerImage` bounds each
      image by three). */
  lemma {:induction false} DispatchCalls(recs: seq<ImageRec>, respond: Responder)
    ensures forall e :: e in Dispatch(recs, respond).trace && e.StartScan? ==>
              exists k :: 0 <= k < |recs| && Addressable(recs[k]) && e.imageId == ScanId(recs[k])
    ensures StartCount(Dispatch(recs, respond).trace) <= InitialTries * |recs|
    decreases |recs|
  {
    if |recs| > 0 {
      var n := |recs| - 1;
      var prev := Dispatch(recs[..n], respond);
      DispatchCalls(recs[..n], respond);
      if prev.ok {
        var r := ImageRun(recs[n], n, respond);
        CountsAppend(prev.trace, r.trace);
        if Addressable(recs[n]) {
          AttemptsCounts(respond, n, ScanId(recs[n]), InitialTries);
          AttemptsIds(respond, n, ScanId(recs[n]), InitialTries);
        }
        forall e | e in Dispatch(recs, respond).trace && e.StartScan?
          ensures exists k :: 0 <= k < |recs| && Addressable(recs[k]) && e.imageId == ScanId(recs[k])
        {
          if e in prev.trace {
            var k :| 0 <= k < n && Addressable(recs[..n][k]) && e.imageId == ScanId(recs[..n][k]);
            assert recs[..n][k] == recs[k];
          } else {
            assert e in r.trace;
            assert Addressable(recs[n]) && e.imageId == ScanId(recs[n]);
          }
        }
      } else {
        forall e | e in Dispatch(recs, respond).trace && e.StartScan?
          ensures exists k :: 0 <= k < |recs| && Addressable(recs[k]) && e.imageId == ScanId(recs[k])
        {
          var k :| 0 <= k < n && Addressable(recs[..n][k]) && e.imageId == ScanId(recs[..n][k]);
          assert recs[..n][k] == recs[k];
        }
      }
    }
  }

  /** A retry loop only ever asks for its own image. */
  lemma {:induction false} AttemptsIds(respond: Responder, i: nat, id: ImageId, tries: nat)
    requires tries <= InitialTries
    ensures forall e :: e in Attempts(respond, i, id, tries).trace && e.StartScan? ==> e.imageId == id
    decreases tries
  {
    if tries > 0 && respond(i, InitialTries - tries) == LimitExceeded {
      AttemptsIds(respond, i, id, tries - 1);
    }
  }

  /** One image of a dispatch: no call without a digest or a tag, else one
      to three calls, all with the keys of that image that are set. */
  lemma ImageRunCalls(r: ImageRec, i: nat, respond: Responder)
    ensures StartCount(ImageRun(r, i, respond).trace) <= InitialTries
    ensures Addressable(r) <==> 1 <= StartCount(ImageRun(r, i, respond).trace)
    ensures forall e :: e in ImageRun(r, i, respond).trace && e.StartScan? ==> e.imageId == ScanId(r)
  {
    if Addressable(r) {
      AttemptsCounts(respond, i, ScanId(r), InitialTries);
      AttemptsIds(respond, i, ScanId(r), InitialTries);
    }
  }

  /** How many images the dispatch reaches: all of them, or those up to
      and including the first whose run raised. */
  function Reached(recs: seq<ImageRec>, respond: Responder): (m: nat)
    ensures m <= |recs|
    decreases |recs|
  {
    if |recs| == 0 then 0
    else
      var n := |recs| - 1;
      if Dispatch(recs[..n], respond).ok then |recs| else Reached(recs[..n], respond)
  }

  /** The runs of images 0 .. m-1, each on its own. */
  function ImageTraces(recs: seq<ImageRec>, respond: Responder, m: nat): (ts: seq<seq<Event>>)
    requires m <= |recs|
    ensures |ts| == m
    ensures forall k :: 0 <= k < m ==> ts[k] == ImageRun(recs[k], k, respond).trace
  {
    seq(m, k requires 0 <= k < m => ImageRun(recs[k], k, respond).trace)
  }

  /** The trace of a dispatch is the runs of the images it reaches, one
      after the other; each image has at most three calls, all for itself,
      and a dispatch without an uncaught exception reaches every image. */
  lemma {:induction false} DispatchPerImage(recs: seq<ImageRec>, respond: Responder)
    ensures Dispatch(recs, respond).trace == Flatten(ImageTraces(recs, respond, Reached(recs, respond)))
    ensures Dispatch(recs, respond).ok ==> Reached(recs, respond) == |recs|
    ensures var ts := ImageTraces(recs, respond, Reached(recs, respond));
            forall k :: 0 <= k < |ts| ==>
              StartCount(ts[k]) <= InitialTries &&
              (Addressable(recs[k]) <==> 1 <= StartCount(ts[k])) &&
              forall e :: e in ts[k] && e.StartScan? ==> e.imageId == ScanId(recs[k])
    decreases |recs|
  {
    var ts: seq<seq<Event>> := ImageTraces(recs, respond, Reached(recs, respond));
    if |recs| > 0 {
      var n := |recs| - 1;
      var prev := Dispatch(recs[..n], respond);
      DispatchPerImage(recs[..n], respond);
      var m := Reached(recs[..n], respond);
      assert ImageTraces(recs[..n], respond, m) == ImageTraces(recs, respond, m) by {
        assert forall k :: 0 <= k < m ==> recs[..n][k] == recs[k];
      }
      if prev.ok {
        assert ts == ImageTraces(recs, respond, n) + [ImageRun(recs[n], n, respond).trace];
        FlattenSnoc(ImageTraces(recs, respond, n), ImageRun(recs[n], n, respond).trace);
      }
    }
    forall k | 0 <= k < |ts|
      ensures StartCount(ts[k]) <= InitialTries
      ensures Addressable(recs[k]) <==> 1 <= StartCount(ts[k])
      ensures forall e: Event :: e in ts[k] && e.StartScan? ==> e.imageId == ScanId(recs[k])
    {
      ImageRunCalls(recs[k], k, respond);
    }
  }

  // ---------------------------------------------------------------------
  // scan_repo_images
  // ---------------------------------------------------------------------

  /** Every image after `update_all_images_timestamp` when no call raised. */
  function Updated(recs: seq<ImageRec>, size: nat, describe: seq<ImageId> -> DescribeOutcome): (u: seq<ImageRec>)
    requires size >= 1
    ensures |u| == |recs|
    ensures forall k :: 0 <= k < |recs| ==> u[k] == UpdatedAt(recs, size, describe, k)
  {
    seq(|recs|, k requires 0 <= k < |recs| => UpdatedAt(recs, size, describe, k))
  }

  /** The image dicts made from list-images' ids. */
  function Listed(ids: seq<ImageId>): (recs: seq<ImageRec>)
    ensures |recs| == |ids|
    ensures forall i :: 0 <= i < |ids| ==> recs[i] == ImageRec(ids[i].imageDigest, ids[i].imageTag, None, None)
  {
    seq(|ids|, i requires 0 <= i < |ids| => ImageRec(ids[i].imageDigest, ids[i].imageTag, None, None))
  }

  /** The images of the repository after the update, those selected for a
      scan, and the dispatch: nothing when a describe-images call raised,
      nothing when no image is due or scanning is switched off. */
  function ScanRepo(recs: seq<ImageRec>, batch: bool, cutoff: Timestamp, noScanImages: bool,
                    describe: seq<ImageId> -> DescribeOutcome, respond: Responder): Run
  {
    var size := ChunkSize(batch);
    if FailedBefore(recs, size, describe, |Chunks(recs, size)|) then Run([], false)
    else
      var updated := Updated(recs, size, describe);
      var selected := Pick(updated, DueMask(updated, cutoff));
      if |selected| == 0 || noScanImages then Run([], true)
      else Dispatch(selected, respond)
  }

  /** `list_all_images` followed by the image dicts it returns. */
  method NewImages(ids: seq<ImageId>) returns (images: seq<Image>)
    ensures Views(images) == Listed(ids)
    ensures Distinct(images)
    ensures forall i :: 0 <= i < |images| ==> fresh(images[i])
  {
    images := [];
    var i := 0;
    while i < |ids|
      invariant 0 <= i <= |ids| && |images| == i
      invariant forall j :: 0 <= j < i ==> images[j].View() == ImageRec(ids[j].imageDigest, ids[j].imageTag, None, None)
      invariant Distinct(images)
      invariant forall j :: 0 <= j < i ==> fresh(images[j])
    {
      var image := new Image(ids[i]);
      images := images + [image];
      i := i + 1;
    }
  }

  /** `scan_repo_images`: without images given, the repository's images as
      listed (`listed`), described in batches of 21; with images given,
      described one by one. Then the selection and, unless nothing is due or
      `noScanImages` is set, the scans. Given images are updated in place,
      each as its own one-image describe-images call leaves it. */
  method ScanRepoImages(repoImages: seq<Image>, listed: seq<ImageId>, durationOverride: Option<string>,
                        noScanImages: bool, env: Option<string>, now: Timestamp,
                        monthsBack: (Timestamp, nat) -> Timestamp,
                        describe: seq<ImageId> -> DescribeOutcome, respond: Responder)
      returns (trace: seq<Event>, ok: bool)
    requires Distinct(repoImages)
    modifies repoImages
    ensures Run(trace, ok) == ScanRepo(if |repoImages| == 0 then Listed(listed) else old(Views(repoImages)),
                                       |repoImages| == 0, GetDuration(durationOverride, env, now, monthsBack),
                                       noScanImages, describe, respond)
    ensures |repoImages| > 0 ==> forall k :: 0 <= k < |repoImages| ==>
              repoImages[k].View() == UpdatedAt(old(Views(repoImages)), SingleChunkSize, describe, k)
  {
    var images := repoImages;
    var batch := false;
    if |repoImages| == 0 {
      images := NewImages(listed);
      batch := true;
    }
    ghost var cutoff := GetDuration(durationOverride, env, now, monthsBack);
    ghost var recs := Views(images);
    assert recs == if |repoImages| == 0 then Listed(listed) else old(Views(repoImages));
    ghost var expected := ScanRepo(recs, batch, cutoff, noScanImages, describe, respond);
    var updatedOk := UpdateAllImagesTimestamp(images, batch, describe);
    if !updatedOk {
      return [], false;
    }
    ghost var updated := Updated(recs, ChunkSize(batch), describe);
    assert Views(images) == updated;
    var toScan := DefineImagesToScan(images, durationOverride, env, now, monthsBack);
    ghost var mask := DueMask(updated, cutoff);
    PickViews(images, mask);
    assert Views(toScan) == Pick(updated, mask);
    if |toScan| == 0 || noScanImages {
      return [], true;
    }
    trace, ok := TriggerImagesScan(toScan, respond);
  }

  /** The update never changes an image's digest or tag. */
  lemma UpdatedKeepsIdentity(recs: seq<ImageRec>, size: nat, describe: seq<ImageId> -> DescribeOutcome, k: nat)
    requires size >= 1 && k < |recs|
    ensures UpdatedAt(recs, size, describe, k).imageDigest == recs[k].imageDigest
    ensures UpdatedAt(recs, size, describe, k).imageTag == recs[k].imageTag
  {
    ChunkOfIndex(recs, size, k);
    var j := k / size;
    if !FailedBefore(recs, size, describe, j) {
      match ChunkOutcome(recs, size, describe, j)
      case Described(ds) => ApplyDetailsKeepsIdentity(recs[k], ds);
      case _ =>
    }
  }

  /** What a repository scan can do: with scanning switched off or after a
      failed describe-images call it starts nothing; otherwise every
      start-image-scan call is for an image of the repository that is due
      after the update, with the digest and tag of that image that are set,
      and there are at most 3·n calls in all for n images (`DispatchPerImage`,
      applied to the selected images, bounds each image by three). */
  lemma ScanRepoCalls(recs: seq<ImageRec>, batch: bool, cutoff: Timestamp, noScanImages: bool,
                      describe: seq<ImageId> -> DescribeOutcome, respond: Responder)
    ensures noScanImages ==> ScanRepo(recs, batch, cutoff, noScanImages, describe, respond).trace == []
    ensures FailedBefore(recs, ChunkSize(batch), describe, |Chunks(recs, ChunkSize(batch))|) ==>
              ScanRepo(recs, batch, cutoff, noScanImages, describe, respond) == Run([], false)
    ensures forall e :: e in ScanRepo(recs, batch, cutoff, noScanImages, describe, respond).trace && e.StartScan? ==>
              exists k :: 0 <= k < |recs| && Due(Updated(recs, ChunkSize(batch), describe), cutoff, k)
                          && Addressable(recs[k]) && e.imageId == ScanId(recs[k])
    ensures StartCount(ScanRepo(recs, batch, cutoff, noScanImages, describe, respond).trace) <= InitialTries * |recs|
  {
    var size := ChunkSize(batch);
    if !FailedBefore(recs, size, describe, |Chunks(recs, size)|) {
      var updated := Updated(recs, size, describe);
      var mask := DueMask(updated, cutoff);
      var selected := Pick(updated, mask);
      PickMembers(updated, mask);
      if |selected| > 0 && !noScanImages {
        DispatchCalls(selected, respond);
        forall e | e in Dispatch(selected, respond).trace && e.StartScan?
          ensures exists k :: 0 <= k < |recs| && Due(updated, cutoff, k)
                              && Addressable(recs[k]) && e.imageId == ScanId(recs[k])
        {
          var m :| 0 <= m < |selected| && Addressable(selected[m]) && e.imageId == ScanId(selected[m]);
          assert selected[m] in selected;
          var k :| 0 <= k < |updated| && mask[k] && updated[k] == selected[m];
          UpdatedKeepsIdentity(recs, size, describe, k);
        }
      }
    }
  }
}
