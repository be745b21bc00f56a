/** The upload tree as an abstract store: a map from paths (sequences of segments) to contents,
    and the set of directories that exist. `fs.ensureDir` and `fs.writeFile` act on it. */
module FileStore {
  import opened JsValues

  newtype byte = x: int | 0 <= x < 256

  /** A path as a sequence of segments; identifiers are used as segments verbatim. */
  type Path = seq<string>

  /** What a file holds: raw uploaded bytes, or the JSON text that `JSON.stringify(value, null, 2)`
      writes for a record (the serialisation itself is not modelled). */
  datatype Content = Bytes(data: seq<byte>) | JsonText(value: JsValue)

  /** Every non-empty prefix of `p`: the directories `ensureDir(p)` guarantees. */
  function Ancestry(p: Path): (s: set<Path>)
    ensures p != [] ==> p in s
    ensures forall q :: q in s ==> q != [] && q <= p
    ensures forall q :: q != [] && q <= p ==> q in s
  {
    assert p != [] ==> p[..|p|] == p;
    var prefixes := set i | 1 <= i <= |p| :: p[..i];
    forall q | q != [] && q <= p ensures q in prefixes {
      assert q == p[..|q|];
    }
    prefixes
  }

  /** `path.join(dir, a, b)` and `path.join(path.join(dir, a), b)` name the same path. */
  lemma JoinChild(dir: Path, a: string, b: string)
    ensures dir + [a] + [b] == dir + [a, b]
  {
    assert [a] + [b] == [a, b];
  }

  class FileSystem {
    var files: map<Path, Content>
    var dirs: set<Path>

    constructor (files0: map<Path, Content>, dirs0: set<Path>)
      ensures files == files0 && dirs == dirs0
    {
      files := files0;
      dirs := dirs0;
    }

    /** `fs.ensureDir(p)`: `p` and all its ancestors exist afterwards; creating one that exists is
        not an error, and no file changes. */
    method EnsureDir(p: Path)
      modifies this
      ensures dirs == old(dirs) + Ancestry(p)
      ensures files == old(files)
    {
      dirs := dirs + Ancestry(p);
    }

    /** `fs.writeFile(p, c)`: the one entry at `p` is created or overwritten. */
    method WriteFile(p: Path, c: Content)
      modifies this
      ensures files == old(files)[p := c]
      ensures dirs == old(dirs)
    {
      files := files[p := c];
    }
  }
}
