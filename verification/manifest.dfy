/** The image-manifest script: the file names of `images/` that carry an
    image extension, each turned into the path `images/<name>`. */
module ImageManifest {
  import Text

  const Dir: string := "images/"

  /** `/\.(png|jpe?g|gif|webp|svg)$/i`: the name ends in one of the
      extensions, ignoring ASCII case. */
  predicate IsImageName(name: string) {
    var l := Text.ToLowerAscii(name);
    || Text.EndsWith(l, ".png") || Text.EndsWith(l, ".jpg") || Text.EndsWith(l, ".jpeg")
    || Text.EndsWith(l, ".gif") || Text.EndsWith(l, ".webp") || Text.EndsWith(l, ".svg")
  }

  /** What one listed name contributes to the manifest. */
  function Entry(name: string): seq<string> {
    if IsImageName(name) then [Dir + name] else []
  }

  /** The filter and the path mapping, over the directory listing in order. */
  function Manifest(files: seq<string>): (r: seq<string>)
    ensures |r| <= |files|
  {
    if files == [] then [] else Entry(files[0]) + Manifest(files[1..])
  }

  /** Every entry is `images/` followed by a listed image name. */
  lemma {:induction false} ManifestEntries(files: seq<string>)
    ensures forall k :: 0 <= k < |Manifest(files)| ==>
      var e := Manifest(files)[k];
      |Dir| <= |e| && e[..|Dir|] == Dir && IsImageName(e[|Dir|..]) && e[|Dir|..] in files
    decreases |files|
  {
    if files != [] {
      ManifestEntries(files[1..]);
      var head, rest := Entry(files[0]), Manifest(files[1..]);
      assert Manifest(files) == head + rest;
      assert forall k :: 0 <= k < |head| ==> head[k][|Dir|..] == files[0];
      assert forall k :: |head| <= k < |head| + |rest| ==> (head + rest)[k] == rest[k - |head|];
    }
  }

  /** Order is kept: the manifest of a listing is the manifests of its parts. */
  lemma {:induction false} ManifestConcat(a: seq<string>, b: seq<string>)
    ensures Manifest(a + b) == Manifest(a) + Manifest(b)
    decreases |a|
  {
    if a == [] {
      assert a + b == b;
    } else {
      var ab := a + b;
      assert ab[0] == a[0] && ab[1..] == a[1..] + b;
      ManifestConcat(a[1..], b);
      calc {
        Manifest(ab);
        Entry(a[0]) + Manifest(a[1..] + b);
        Entry(a[0]) + (Manifest(a[1..]) + Manifest(b));
        (Entry(a[0]) + Manifest(a[1..])) + Manifest(b);
        Manifest(a) + Manifest(b);
      }
    }
  }

  lemma PrefixInjective(a: string, b: string)
    requires Dir + a == Dir + b
    ensures a == b
  {
    assert a == (Dir + a)[|Dir|..];
    assert b == (Dir + b)[|Dir|..];
  }

  lemma EntryCount(f: string, name: string)
    ensures multiset(Entry(f))[Dir + name] == if f == name && IsImageName(name) then 1 else 0
  {
    if IsImageName(f) && Dir + f == Dir + name {
      PrefixInjective(f, name);
    }
  }

  /** Every image name appears as `images/<name>` exactly as often as in the
      listing; any other name never does. */
  lemma {:induction false} ManifestCounts(files: seq<string>, name: string)
    ensures multiset(Manifest(files))[Dir + name]
      == if IsImageName(name) then multiset(files)[name] else 0
    decreases |files|
  {
    if files != [] {
      ManifestCounts(files[1..], name);
      assert files == [files[0]] + files[1..];
      assert multiset(files) == multiset([files[0]]) + multiset(files[1..]);
      assert Manifest(files) == Entry(files[0]) + Manifest(files[1..]);
      assert multiset(Manifest(files)) == multiset(Entry(files[0])) + multiset(Manifest(files[1..]));
      EntryCount(files[0], name);
    }
  }

  /** A name is in the manifest if and only if it is listed and is an image. */
  lemma ManifestMembership(files: seq<string>, name: string)
    ensures Dir + name in Manifest(files) <==> name in files && IsImageName(name)
  {
    ManifestCounts(files, name);
    assert Dir + name in Manifest(files) <==> multiset(Manifest(files))[Dir + name] > 0;
    assert name in files <==> multiset(files)[name] > 0;
  }
}
