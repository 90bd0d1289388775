/**
 `KeyStore.calculate_s3_etag` and `get_obj_if_needed`: a local file stands in for a remote
 object when the object's tag equals a hash of the hashes of the file's chunks. The hash is
 any function with digests of sixteen bytes.
 */
module Keystore {
  import opened Text

  type Byte = b: int | 0 <= b < 256
  type Bytes = seq<Byte>
  type Hash = Bytes -> Bytes

  const DIGEST: nat := 16
  const CHUNK_SIZE: int := 8 * 1024 * 1024

  ghost predicate IsMd5(md5: Hash) {
    forall b :: |md5(b)| == DIGEST
  }

  // ---- Printing

  const HEX := "0123456789abcdef"

  /** `hexdigest` */
  function Hex(b: Bytes): (s: string)
    ensures |s| == 2 * |b|
  {
    if b == [] then "" else [HEX[b[0] / 16], HEX[b[0] % 16]] + Hex(b[1..])
  }

  /** The value of a digit, by its place in the alphabet. */
  function Digit(c: char): (d: int) {
    if '0' <= c <= '9' then c as int - '0' as int else if 'a' <= c <= 'f' then c as int - 'a' as int + 10 else -1
  }

  lemma DigitOfHex(d: nat)
    requires d < 16
    ensures Digit(HEX[d]) == d
  {
  }

  /** The two digits of each byte are its value in base sixteen, the high one first. */
  lemma {:induction false} HexReadsBack(b: Bytes, i: nat)
    requires i < |b|
    ensures 16 * Digit(Hex(b)[2 * i]) + Digit(Hex(b)[2 * i + 1]) == b[i]
  {
    hide Digit;
    if i == 0 {
      DigitOfHex(b[0] / 16);
      DigitOfHex(b[0] % 16);
    } else {
      HexReadsBack(b[1..], i - 1);
      assert Hex(b)[2..] == Hex(b[1..]);
      assert Hex(b)[2 * i] == Hex(b)[2..][2 * i - 2] && Hex(b)[2 * i + 1] == Hex(b)[2..][2 * i - 1];
    }
  }

  lemma HexDigitInjective(i: nat, j: nat)
    requires i < 16 && j < 16 && HEX[i] == HEX[j]
    ensures i == j
  {
  }

  lemma {:induction false} HexInjective(a: Bytes, b: Bytes)
    requires Hex(a) == Hex(b)
    ensures a == b
  {
    assert |Hex(a)| == |Hex(b)|;
    if a != [] {
      var s, t := Hex(a), Hex(b);
      assert s[0] == t[0] && s[1] == t[1] && s[2..] == Hex(a[1..]) && t[2..] == Hex(b[1..]);
      HexDigitInjective(a[0] / 16, b[0] / 16);
      HexDigitInjective(a[0] % 16, b[0] % 16);
      HexInjective(a[1..], b[1..]);
    }
  }

  /** Decimal notation. */
  function Decimal(n: nat): (s: string)
    ensures s != ""
  {
    if n < 10 then [HEX[n]] else Decimal(n / 10) + [HEX[n % 10]]
  }

  /** The number that a string of decimal digits stands for. */
  function Value(s: string): (n: int) {
    if s == "" then 0 else 10 * Value(s[..|s| - 1]) + Digit(s[|s| - 1])
  }

  lemma {:induction false} DecimalReadsBack(n: nat)
    ensures Value(Decimal(n)) == n
    ensures n > 0 ==> Decimal(n)[0] != '0'
  {
    hide Digit;
    var s := Decimal(n);
    DigitOfHex(n % 10);
    if n < 10 {
      assert s[..0] == "" && n % 10 == n;
    } else {
      DecimalReadsBack(n / 10);
      assert s[..|s| - 1] == Decimal(n / 10);
    }
  }

  lemma {:induction false} DecimalInjective(m: nat, n: nat)
    requires Decimal(m) == Decimal(n)
    ensures m == n
    decreases m
  {
    var s, t := Decimal(m), Decimal(n);
    assert s[|s| - 1] == t[|t| - 1];
    HexDigitInjective(m % 10, n % 10);
    if m >= 10 && n >= 10 {
      assert s[..|s| - 1] == Decimal(m / 10) && t[..|t| - 1] == Decimal(n / 10);
      DecimalInjective(m / 10, n / 10);
    }
  }

  // ---- The tag

  /** `file.read(size)`: a negative size reads everything. */
  function ReadChunk(rest: Bytes, size: int): (c: Bytes)
    ensures c <= rest
  {
    if size < 0 || |rest| <= size then rest else rest[..size]
  }

  function Chunks(file: Bytes, size: int): (cs: seq<Bytes>)
    decreases |file|
  {
    var c := ReadChunk(file, size);
    if c == [] then [] else [c] + Chunks(file[|c|..], size)
  }

  function Flatten(bs: seq<Bytes>): (b: Bytes) {
    if bs == [] then [] else bs[0] + Flatten(bs[1..])
  }

  function Digests(md5: Hash, cs: seq<Bytes>): (ds: seq<Bytes>)
    ensures |ds| == |cs| && forall i :: 0 <= i < |cs| ==> ds[i] == md5(cs[i])
  {
    seq(|cs|, i requires 0 <= i < |cs| => md5(cs[i]))
  }

  function Etag(md5: Hash, file: Bytes, size: int): (tag: string) {
    var cs := Chunks(file, size);
    if |cs| == 1 then "\"" + Hex(md5(cs[0])) + "\""
    else "\"" + Hex(md5(Flatten(Digests(md5, cs)))) + "-" + Decimal(|cs|) + "\""
  }

  method CalculateS3Etag(md5: Hash, file: Bytes, size: int) returns (tag: string)
    ensures tag == Etag(md5, file, size)
  {
    var rest, md5s := file, [];
    ghost var done: seq<Bytes> := [];
    while true
      invariant Chunks(file, size) == done + Chunks(rest, size) && md5s == Digests(md5, done)
      decreases |rest|
    {
      var data := ReadChunk(rest, size);
      if data == [] {
        break;
      }
      rest, md5s, done := rest[|data|..], md5s + [md5(data)], done + [data];
    }
    assert done == Chunks(file, size);
    if |md5s| == 1 {
      return "\"" + Hex(md5s[0]) + "\"";
    }
    tag := "\"" + Hex(md5(Flatten(md5s))) + "-" + Decimal(|md5s|) + "\"";
  }

  // ---- What equal tags mean

  lemma FlattenStep(c: Bytes, rest: seq<Bytes>)
    ensures Flatten([c] + rest) == c + Flatten(rest)
  {
    assert ([c] + rest)[1..] == rest;
  }

  lemma {:induction false} ChunksCover(file: Bytes, size: int)
    requires size != 0
    ensures Flatten(Chunks(file, size)) == file
    decreases |file|
  {
    hide Flatten;
    var c := ReadChunk(file, size);
    if c == [] {
      NothingToFlatten();
    } else {
      var rest := file[|c|..];
      ChunksCover(rest, size);
      FlattenStep(c, Chunks(rest, size));
      assert file == c + rest;
    }
  }

  lemma NothingToFlatten()
    ensures Flatten([]) == []
  {
  }

  /** Every chunk but the last has exactly the chunk size, and the last is not empty. */
  lemma {:induction false} ChunkSizes(file: Bytes, size: int, i: nat)
    requires size > 0 && i < |Chunks(file, size)|
    ensures i < |Chunks(file, size)| - 1 ==> |Chunks(file, size)[i]| == size
    ensures 1 <= |Chunks(file, size)[i]| <= size
    decreases |file|
  {
    var c := ReadChunk(file, size);
    var rest := file[|c|..];
    if i > 0 {
      ChunkSizes(rest, size, i - 1);
    } else if Chunks(rest, size) != [] {
      assert rest != [];
    }
  }

  /** A negative size reads the whole file at once, and an empty file has no chunk. */
  lemma WholeFileChunk(file: Bytes, size: int)
    ensures size < 0 && file != [] ==> Chunks(file, size) == [file]
    ensures file == [] ==> Chunks(file, size) == []
  {
  }

  /** Everything that is hashed on the way to a file's tag. */
  function Hashed(md5: Hash, file: Bytes, size: int): (xs: seq<Bytes>) {
    var cs := Chunks(file, size);
    if |cs| == 1 then cs else cs + [Flatten(Digests(md5, cs))]
  }

  ghost predicate Collision(md5: Hash, xs: seq<Bytes>, ys: seq<Bytes>) {
    exists x, y :: x in xs && y in ys && x != y && md5(x) == md5(y)
  }

  /** The tag tells one chunk from any other number, and gives away the digest and the number. */
  lemma TagParts(md5: Hash, a: Bytes, b: Bytes, size: int)
    requires IsMd5(md5) && Etag(md5, a, size) == Etag(md5, b, size)
    ensures |Chunks(a, size)| == |Chunks(b, size)|
    ensures |Chunks(a, size)| == 1 ==> md5(Chunks(a, size)[0]) == md5(Chunks(b, size)[0])
    ensures |Chunks(a, size)| != 1 ==>
      md5(Flatten(Digests(md5, Chunks(a, size)))) == md5(Flatten(Digests(md5, Chunks(b, size))))
  {
    hide Hex, Decimal, Chunks, Flatten;
    TagShape(md5, a, size);
    TagShape(md5, b, size);
    var cs, ds := Chunks(a, size), Chunks(b, size);
    assert |cs| == 1 <==> |ds| == 1;
    if |cs| == 1 {
      HexInjective(md5(cs[0]), md5(ds[0]));
    } else {
      DecimalInjective(|cs|, |ds|);
      HexInjective(md5(Flatten(Digests(md5, cs))), md5(Flatten(Digests(md5, ds))));
    }
  }

  /** The tag is quoted; it has the digest of the only chunk, or that of all digests and the number of chunks. */
  lemma TagShape(md5: Hash, f: Bytes, size: int)
    requires IsMd5(md5)
    ensures var cs, tag := Chunks(f, size), Etag(md5, f, size);
      && |tag| >= 34 && tag[0] == '"' == tag[|tag| - 1]
      && (|cs| == 1 ==> |tag| == 34 && tag[1..33] == Hex(md5(cs[0])))
      && (|cs| != 1 ==>
            && tag[33] == '-' && tag[1..33] == Hex(md5(Flatten(Digests(md5, cs))))
            && tag[34..|tag| - 1] == Decimal(|cs|))
  {
    hide Hex, Decimal, Chunks, Flatten;
  }

  /** Digests of equal length are recovered from their concatenation. */
  lemma {:induction false} SameDigests(ds: seq<Bytes>, es: seq<Bytes>)
    requires |ds| == |es| && Flatten(ds) == Flatten(es)
    requires forall i :: 0 <= i < |ds| ==> |ds[i]| == DIGEST && |es[i]| == DIGEST
    ensures ds == es
  {
    if ds != [] {
      assert Flatten(ds)[..DIGEST] == ds[0] && Flatten(es)[..DIGEST] == es[0];
      assert Flatten(ds)[DIGEST..] == Flatten(ds[1..]) && Flatten(es)[DIGEST..] == Flatten(es[1..]);
      SameDigests(ds[1..], es[1..]);
    }
  }

  /** Two files with the same tag are the same file, or two different strings hashed on the way have the same digest. */
  lemma SameTagSameFile(md5: Hash, a: Bytes, b: Bytes, size: int)
    requires IsMd5(md5) && size != 0 && Etag(md5, a, size) == Etag(md5, b, size)
    ensures a == b || Collision(md5, Hashed(md5, a, size), Hashed(md5, b, size))
  {
    hide Etag, Chunks, Flatten;
    TagParts(md5, a, b, size);
    ChunksCover(a, size);
    ChunksCover(b, size);
    var cs, ds := Chunks(a, size), Chunks(b, size);
    var x, y := Flatten(Digests(md5, cs)), Flatten(Digests(md5, ds));
    if |cs| == 1 {
      assert cs[0] in Hashed(md5, a, size) && ds[0] in Hashed(md5, b, size);
      assert cs[0] == ds[0] ==> cs == ds;
    } else if x != y {
      assert x in Hashed(md5, a, size) && y in Hashed(md5, b, size);
    } else {
      SameDigests(Digests(md5, cs), Digests(md5, ds));
      if cs != ds {
        var i :| 0 <= i < |cs| && cs[i] != ds[i];
        assert Digests(md5, cs)[i] == Digests(md5, ds)[i];
        assert cs[i] in Hashed(md5, a, size) && ds[i] in Hashed(md5, b, size);
      }
    }
  }

  /** With chunks of size zero nothing is read and all files have the same tag. */
  lemma ZeroSizeTagsAgree(md5: Hash, a: Bytes, b: Bytes)
    ensures Etag(md5, a, 0) == Etag(md5, b, 0)
  {
    assert Chunks(a, 0) == [] && Chunks(b, 0) == [];
  }

  // ---- The local copies

  /** A remote object and the tag the store reports for it, if it reports one. */
  datatype Object = Object(content: Bytes, tag: Option<string>)

  /** The tag is the one that would be computed from the object's content. */
  predicate OwnTag(md5: Hash, o: Object) {
    o.tag == Some(Etag(md5, o.content, CHUNK_SIZE))
  }

  /** The local copy is the object, unless the hash collides on something hashed for one of the two. */
  ghost predicate Faithful(md5: Hash, copy: Bytes, o: Object) {
    copy == o.content || Collision(md5, Hashed(md5, copy, CHUNK_SIZE), Hashed(md5, o.content, CHUNK_SIZE))
  }

  class LocalStore {
    var files: map<string, Bytes>
    var modes: map<string, int>

    constructor ()
      ensures files == map[] && modes == map[]
    {
      files, modes := map[], map[];
    }

    /** `get_obj_if_needed`; `ok` is false when the store has no such object. */
    method GetObjIfNeeded(md5: Hash, remote: map<string, Object>, key: string, permissions: int) returns (ok: bool)
      requires IsMd5(md5)
      modifies this
      ensures ok <==> key in remote
      ensures !ok ==> files == old(files) && modes == old(modes)
      // a file with the object's tag is kept as it is
      ensures ok && key in old(files) && remote[key].tag == Some(Etag(md5, old(files)[key], 8 * 1024 * 1024)) ==>
        files == old(files) && modes == old(modes)
      // any other is replaced
      ensures ok && !(key in old(files) && remote[key].tag == Some(Etag(md5, old(files)[key], 8 * 1024 * 1024))) ==>
        files == old(files)[key := remote[key].content] && modes == old(modes)[key := permissions]
      ensures ok && OwnTag(md5, remote[key]) ==> key in files && Faithful(md5, files[key], remote[key])
    {
      if key !in remote {
        return false;
      }
      var tag, download := remote[key].tag, true;
      if key in files {
        var mine := CalculateS3Etag(md5, files[key], CHUNK_SIZE);
        if tag == Some(mine) {
          download := false;
          if OwnTag(md5, remote[key]) {
            SameTagSameFile(md5, files[key], remote[key].content, CHUNK_SIZE);
          }
        }
      }
      if download {
        files, modes := files[key := remote[key].content], modes[key := permissions];
      }
      ok := true;
    }

    /** The file here is what the store holds under the key, or has the same tag; a tag of its own settles it. */
    ghost predicate Synced(md5: Hash, remote: map<string, Object>, key: string)
      reads this
    {
      key in remote ==>
        && key in files
        && (files[key] == remote[key].content || remote[key].tag == Some(Etag(md5, files[key], CHUNK_SIZE)))
        && (OwnTag(md5, remote[key]) ==> Faithful(md5, files[key], remote[key]))
    }

    /**
     `sync`: once a key is found missing, `cancelled` says which of the later ones had not been started and are
     dropped; all others are fetched. No keys at all is an error of the thread pool.
     */
    method Sync(md5: Hash, remote: map<string, Object>, keys: seq<string>, permissions: int, cancelled: nat -> bool)
      returns (ok: bool)
      requires IsMd5(md5)
      modifies this
      ensures ok <==> keys != [] && forall key :: key in keys ==> key in remote
      ensures forall i: nat :: i < |keys| && Started(keys, i, remote, cancelled) ==> Synced(md5, remote, keys[i])
      ensures OnlyFetched(old(files), old(modes), files, modes, remote, keys, permissions)
    {
      hide Faithful, OwnTag, Etag, OnlyFetched;
      NothingFetched(files, modes, remote, keys, permissions);
      var failed := false;
      for i := 0 to |keys|
        invariant failed <==> !AllPresent(keys[..i], remote)
        invariant forall j: nat :: j < i && Started(keys, j, remote, cancelled) ==> Synced(md5, remote, keys[j])
        invariant OnlyFetched(old(files), old(modes), files, modes, remote, keys, permissions)
      {
        assert keys[..i + 1] == keys[..i] + [keys[i]];
        if !(failed && cancelled(i)) {
          ghost var files0, modes0 := files, modes;
          var fetched := GetObjIfNeeded(md5, remote, keys[i], permissions);
          failed := failed || !fetched;
          if fetched {
            OneFetched(old(files), old(modes), files0, modes0, remote, keys, permissions, keys[i]);
          }
        }
      }
      assert keys[..|keys|] == keys;
      ok := keys != [] && !failed;
    }
  }

  /**
   No file is gone; one that is not as it was before is what the store holds under a key that was asked for, and has
   the given permissions; and no other permissions have changed.
   */
  ghost predicate OnlyFetched(files0: map<string, Bytes>, modes0: map<string, int>, files: map<string, Bytes>,
                              modes: map<string, int>, remote: map<string, Object>, keys: seq<string>, permissions: int)
  {
    && (forall key :: key in files0 ==> key in files)
    && (forall key :: key in files && !(key in files0 && files[key] == files0[key]) ==>
          && key in keys && key in remote && files[key] == remote[key].content
          && key in modes && modes[key] == permissions)
    && (forall key :: key in modes ==>
          (key in modes0 && modes[key] == modes0[key]) || (key in keys && modes[key] == permissions))
  }

  lemma NothingFetched(files: map<string, Bytes>, modes: map<string, int>, remote: map<string, Object>,
                       keys: seq<string>, permissions: int)
    ensures OnlyFetched(files, modes, files, modes, remote, keys, permissions)
  {
  }

  lemma OneFetched(files0: map<string, Bytes>, modes0: map<string, int>, files: map<string, Bytes>,
                   modes: map<string, int>, remote: map<string, Object>, keys: seq<string>, permissions: int,
                   key: string)
    requires OnlyFetched(files0, modes0, files, modes, remote, keys, permissions) && key in keys && key in remote
    ensures OnlyFetched(files0, modes0, files[key := remote[key].content], modes[key := permissions], remote, keys,
                        permissions)
  {
  }

  /** The fetch of key `i` is not cancelled: no key before it is missing, or it had been started by then. */
  predicate Started(keys: seq<string>, i: nat, remote: map<string, Object>, cancelled: nat -> bool)
    requires i < |keys|
  {
    AllPresent(keys[..i], remote) || !cancelled(i)
  }

  predicate AllPresent(keys: seq<string>, remote: map<string, Object>) {
    forall key :: key in keys ==> key in remote
  }
}
