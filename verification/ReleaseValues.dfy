/**
 The digests a release file pins: `split_image`, `third_party_rows` and how `generate` joins them with the
 digests of the release's own services. A registry is asked about a digest, never about a tag.
 */
module ReleaseValues {
  import opened Options

  // ---- cutting text

  /** What stands before the first `c`, or all of it. */
  function Before(s: string, c: char): string {
    if s == [] || s[0] == c then [] else [s[0]] + Before(s[1..], c)
  }

  /** What stands after the first `c`, or nothing. */
  function After(s: string, c: char): string {
    if s == [] then [] else if s[0] == c then s[1..] else After(s[1..], c)
  }

  /** What stands before the last `c`, or all of it. */
  function BeforeLast(s: string, c: char): string {
    if c !in s then s
    else if s[|s| - 1] == c then s[..|s| - 1]
    else
      assert s == s[..|s| - 1] + [s[|s| - 1]];
      BeforeLast(s[..|s| - 1], c)
  }

  /** What stands after the last `c`, or all of it. */
  function AfterLast(s: string, c: char): string {
    if s == [] || s[|s| - 1] == c then [] else AfterLast(s[..|s| - 1], c) + [s[|s| - 1]]
  }

  lemma {:induction false} Cut(a: string, c: char, b: string)
    requires c !in a
    ensures Before(a + [c] + b, c) == a && After(a + [c] + b, c) == b
    ensures Before(a, c) == a && After(a, c) == []
  {
    if a == [] {
      assert a + [c] + b == [c] + b;
    } else {
      assert (a + [c] + b)[1..] == a[1..] + [c] + b;
      Cut(a[1..], c, b);
    }
  }

  lemma {:induction false} CutLast(a: string, c: char, b: string)
    requires c !in b
    ensures BeforeLast(a + [c] + b, c) == a && AfterLast(a + [c] + b, c) == b
    ensures AfterLast(b, c) == b
    decreases |b|
  {
    var s := a + [c] + b;
    if b == [] {
      assert s == a + [c];
    } else {
      var front := b[..|b| - 1];
      assert s[..|s| - 1] == a + [c] + front && b == front + [b[|b| - 1]];
      assert c in s by {
        assert s[|a|] == c;
      }
      CutLast(a, c, front);
    }
  }

  // ---- split_image

  /** An image by registry and repository, and the digest it is rendered with, if any. */
  datatype Image = Image(registry: string, repo: string, digest: Option<string>)

  /** `split_image`. */
  function SplitImage(image: string): Image {
    var ref, digest := Before(image, '@'), After(image, '@');
    var registry, rest := Before(ref, '/'), After(ref, '/');
    var last := AfterLast(rest, '/');
    Image(registry, if ':' in last then BeforeLast(rest, ':') else rest, if digest == [] then None else Some(digest))
  }

  /** An image as it is rendered. */
  function Rendered(registry: string, repo: string, tag: Option<string>, digest: Option<string>): string {
    registry + "/" + repo + (if tag.Some? then ":" + tag.value else "")
    + (if digest.Some? then "@" + digest.value else "")
  }

  /** No slash or at-sign in the registry, no colon in the last part of the repository, none of the three in a tag. */
  predicate Spelt(registry: string, repo: string, tag: Option<string>, digest: Option<string>) {
    && '/' !in registry && '@' !in registry && '@' !in repo && ':' !in AfterLast(repo, '/')
    && (tag.Some? ==> '/' !in tag.value && ':' !in tag.value && '@' !in tag.value)
    && (digest.Some? ==> digest.value != [])
  }

  lemma {:induction false} LastPartGrows(repo: string, more: string)
    requires '/' !in more
    ensures AfterLast(repo + more, '/') == AfterLast(repo, '/') + more
    decreases |more|
  {
    if more == [] {
      assert repo + more == repo;
    } else {
      var front := more[..|more| - 1];
      assert (repo + more)[..|repo + more| - 1] == repo + front && more == front + [more[|more| - 1]];
      LastPartGrows(repo, front);
    }
  }

  lemma TagComesOff(repo: string, tag: Option<string>)
    requires ':' !in AfterLast(repo, '/') && (tag.Some? ==> '/' !in tag.value && ':' !in tag.value)
    ensures var rest := repo + (if tag.Some? then ":" + tag.value else "");
      (if ':' in AfterLast(rest, '/') then BeforeLast(rest, ':') else rest) == repo
  {
    if tag.Some? {
      LastPartGrows(repo, ":" + tag.value);
      CutLast(repo, ':', tag.value);
      assert repo + ":" + tag.value == repo + (":" + tag.value);
      assert (":" + tag.value)[0] == ':';
    } else {
      assert repo + "" == repo;
    }
  }

  lemma DigestComesOff(ref: string, digest: Option<string>)
    requires '@' !in ref && (digest.Some? ==> digest.value != [])
    ensures var image := ref + (if digest.Some? then "@" + digest.value else "");
      Before(image, '@') == ref && (if After(image, '@') == [] then None else Some(After(image, '@'))) == digest
  {
    if digest.Some? {
      Cut(ref, '@', digest.value);
      assert ref + ("@" + digest.value) == ref + "@" + digest.value;
    } else {
      Cut(ref, '@', []);
      assert ref + "" == ref;
    }
  }

  /** An image split gives back what it was rendered from, whatever its tag. */
  lemma SplitRendered(registry: string, repo: string, tag: Option<string>, digest: Option<string>)
    requires Spelt(registry, repo, tag, digest)
    ensures SplitImage(Rendered(registry, repo, tag, digest)) == Image(registry, repo, digest)
  {
    hide AfterLast, BeforeLast, Before, After;
    var rest := repo + (if tag.Some? then ":" + tag.value else "");
    var ref := registry + "/" + rest;
    assert '@' !in ref;
    assert Rendered(registry, repo, tag, digest) == ref + (if digest.Some? then "@" + digest.value else "");
    hide Rendered;
    TagComesOff(repo, tag);
    Cut(registry, '/', rest);
    DigestComesOff(ref, digest);
  }

  // ---- third_party_rows

  /** The status and digest a registry answers with. */
  datatype Answer = Answer(status: int, digest: Option<string>)

  type Head = (string, string, string) -> Answer

  datatype Outcome = Pinned(rows: map<string, string>) | Refused(code: int)

  function KeyOf(image: Image): string {
    image.registry + "/" + image.repo
  }

  predicate IsOurs(image: Image, prefix: string) {
    prefix + "/" <= KeyOf(image)
  }

  predicate Confirmed(image: Image, head: Head) {
    image.digest.Some? && head(image.registry, image.repo, image.digest.value) == Answer(200, image.digest)
  }

  // ---- the same, in the image's own parts

  /** The image is not one of the release's own. */
  ghost predicate ThirdParty(image: Image, prefix: string): (r: bool)
    ensures r == !IsOurs(image, prefix)
  {
    !(prefix + "/" <= image.registry + "/" + image.repo)
  }

  /** Asked for the digest, the registry answers 200 and that digest. */
  ghost predicate Vouched(image: Image, head: Head): (r: bool)
    ensures r == Confirmed(image, head)
  {
    image.digest.Some? &&
    var answer := head(image.registry, image.repo, image.digest.value);
    answer.status == 200 && answer.digest == image.digest
  }

  /** The first `n` images, each split. */
  function Pins(images: seq<string>, n: nat, prefix: string, head: Head): Outcome
    requires n <= |images|
  {
    if n == 0 then Pinned(map[])
    else
      var before := Pins(images, n - 1, prefix, head);
      var image := SplitImage(images[n - 1]);
      if before.Refused? || IsOurs(image, prefix) then before
      else if image.digest.None? then Refused(4)
      else if !Confirmed(image, head) then Refused(5)
      else Pinned(before.rows[KeyOf(image) := image.digest.value])
  }

  lemma {:induction false} RefusedStays(images: seq<string>, n: nat, m: nat, prefix: string, head: Head)
    requires n <= m <= |images| && Pins(images, n, prefix, head).Refused?
    ensures Pins(images, m, prefix, head) == Pins(images, n, prefix, head)
    decreases m
  {
    hide SplitImage, IsOurs, Confirmed;
    if n < m {
      RefusedStays(images, n, m - 1, prefix, head);
    }
  }

  /** `third_party_rows`. */
  method ThirdPartyRows(images: seq<string>, prefix: string, head: Head) returns (outcome: Outcome)
    ensures outcome == Pins(images, |images|, prefix, head)
  {
    hide SplitImage, IsOurs;
    var rows: map<string, string> := map[];
    for i := 0 to |images|
      invariant Pins(images, i, prefix, head) == Pinned(rows)
    {
      var image := SplitImage(images[i]);
      if !IsOurs(image, prefix) {
        if image.digest.None? {
          RefusedStays(images, i + 1, |images|, prefix, head);
          return Refused(4);
        }
        var answer := head(image.registry, image.repo, image.digest.value);
        if answer.status != 200 || answer.digest != image.digest {
          RefusedStays(images, i + 1, |images|, prefix, head);
          return Refused(5);
        }
        rows := rows[KeyOf(image) := image.digest.value];
      }
    }
    outcome := Pinned(rows);
  }

  /** Nothing is refused exactly when every third-party image has a digest that its registry confirms. */
  lemma {:induction false} PinnedExactly(images: seq<string>, n: nat, prefix: string, head: Head)
    requires n <= |images|
    ensures Pins(images, n, prefix, head).Pinned? <==>
      forall i :: 0 <= i < n && ThirdParty(SplitImage(images[i]), prefix) ==> Vouched(SplitImage(images[i]), head)
  {
    hide SplitImage, IsOurs;
    if n > 0 {
      PinnedExactly(images, n - 1, prefix, head);
    }
  }

  /** What is wrong with one image: 4 for no digest, 5 for one its registry does not confirm. */
  ghost function FaultOf(image: Image, prefix: string, head: Head): Option<int> {
    if !ThirdParty(image, prefix) || Vouched(image, head) then None
    else if image.digest.None? then Some(4)
    else Some(5)
  }

  /** A refusal gives the fault of the first image that has one. */
  lemma {:induction false} RefusedAtFirst(images: seq<string>, n: nat, prefix: string, head: Head)
    requires n <= |images| && Pins(images, n, prefix, head).Refused?
    ensures exists i ::
      && 0 <= i < n && FaultOf(SplitImage(images[i]), prefix, head) == Some(Pins(images, n, prefix, head).code)
      && (forall j :: 0 <= j < i ==> FaultOf(SplitImage(images[j]), prefix, head).None?)
  {
    hide SplitImage, IsOurs;
    if Pins(images, n - 1, prefix, head).Refused? {
      RefusedAtFirst(images, n - 1, prefix, head);
    } else {
      PinnedExactly(images, n - 1, prefix, head);
      assert FaultOf(SplitImage(images[n - 1]), prefix, head).Some?;
    }
  }

  /** Every row is of a third-party image that its registry confirmed, and every such image has a row. */
  lemma {:induction false} RowsAreConfirmed(images: seq<string>, n: nat, prefix: string, head: Head)
    requires n <= |images| && Pins(images, n, prefix, head).Pinned?
    ensures var rows := Pins(images, n, prefix, head).rows;
      && (forall k :: k in rows ==> exists i :: 0 <= i < n && RowOf(images[i], k, rows[k], prefix, head))
      && (forall i :: 0 <= i < n && ThirdParty(SplitImage(images[i]), prefix) ==>
            Reference(SplitImage(images[i])) in rows)
  {
    hide SplitImage, IsOurs, KeyOf, Confirmed;
    if n > 0 {
      RowsAreConfirmed(images, n - 1, prefix, head);
      var before, rows := Pins(images, n - 1, prefix, head).rows, Pins(images, n, prefix, head).rows;
      forall k | k in rows ensures exists i :: 0 <= i < n && RowOf(images[i], k, rows[k], prefix, head) {
        if k in before && rows[k] == before[k] {
          var i :| 0 <= i < n - 1 && RowOf(images[i], k, before[k], prefix, head);
        } else {
          assert RowOf(images[n - 1], k, rows[k], prefix, head);
        }
      }
    }
  }

  /** The row pins this image to its own digest, confirmed. */
  ghost predicate RowOf(image: string, key: string, digest: string, prefix: string, head: Head) {
    var split := SplitImage(image);
    ThirdParty(split, prefix) && Reference(split) == key && split.digest == Some(digest) && Vouched(split, head)
  }

  /** What the release file keys an image by. */
  ghost function Reference(image: Image): (r: string)
    ensures r == KeyOf(image)
  {
    image.registry + "/" + image.repo
  }

  /** No repository is rendered at two digests. */
  ghost predicate OneDigestEach(images: seq<string>, prefix: string) {
    forall i, j :: 0 <= i < |images| && 0 <= j < |images|
      && ThirdParty(SplitImage(images[i]), prefix) && ThirdParty(SplitImage(images[j]), prefix)
      && Reference(SplitImage(images[i])) == Reference(SplitImage(images[j]))
      ==> SplitImage(images[i]).digest == SplitImage(images[j]).digest
  }

  /**
   A release file pins every third-party image to the digest it is rendered with exactly when no repository has
   two.
   */
  lemma EveryImagePinnedExactly(images: seq<string>, prefix: string, head: Head)
    requires Pins(images, |images|, prefix, head).Pinned?
    ensures var rows := Pins(images, |images|, prefix, head).rows;
      (forall i :: 0 <= i < |images| && ThirdParty(SplitImage(images[i]), prefix) ==>
        Reference(SplitImage(images[i])) in rows
        && Some(rows[Reference(SplitImage(images[i]))]) == SplitImage(images[i]).digest)
      <==> OneDigestEach(images, prefix)
  {
    hide SplitImage, IsOurs, KeyOf, Pins, Confirmed;
    RowsAreConfirmed(images, |images|, prefix, head);
    var rows := Pins(images, |images|, prefix, head).rows;
    if OneDigestEach(images, prefix) {
      forall i | 0 <= i < |images| && !IsOurs(SplitImage(images[i]), prefix)
        ensures Some(rows[KeyOf(SplitImage(images[i]))]) == SplitImage(images[i]).digest
      {
        var k := KeyOf(SplitImage(images[i]));
        var j :| 0 <= j < |images| && RowOf(images[j], k, rows[k], prefix, head);
      }
    }
  }

  /**
   Any repository rendered at two digests, each of which its registry confirms: nothing is refused, and the release
   file pins the first image to the digest of the second.
   */
  lemma FirstDigestIsDropped(registry: string, repo: string, first: string, second: string, prefix: string, head: Head)
    requires Spelt(registry, repo, None, Some(first)) && Spelt(registry, repo, None, Some(second)) && first != second
    requires Vouched(Image(registry, repo, Some(first)), head) && Vouched(Image(registry, repo, Some(second)), head)
    requires !(prefix + "/" <= registry + "/" + repo)
    ensures var images := [Rendered(registry, repo, None, Some(first)), Rendered(registry, repo, None, Some(second))];
      Pins(images, 2, prefix, head) == Pinned(map[registry + "/" + repo := second])
  {
    SplitRendered(registry, repo, None, Some(first));
    SplitRendered(registry, repo, None, Some(second));
    hide SplitImage, Rendered, Spelt;
    var images := [Rendered(registry, repo, None, Some(first)), Rendered(registry, repo, None, Some(second))];
    assert Pins(images, 0, prefix, head) == Pinned(map[]);
    assert Pins(images, 1, prefix, head) == Pinned(map[registry + "/" + repo := first]);
  }

  /** The services' own rows are keyed under the prefix, so no third-party row replaces one. */
  lemma OursAreNotReplaced(images: seq<string>, prefix: string, head: Head, service: string)
    requires Pins(images, |images|, prefix, head).Pinned?
    ensures prefix + "/" + service !in Pins(images, |images|, prefix, head).rows
  {
    RowsAreConfirmed(images, |images|, prefix, head);
    hide SplitImage, Pins, Confirmed;
    assert prefix + "/" <= prefix + "/" + service;
  }
}
