/**
 The loops of `writeOutput`: collecting the map's values, appending one
 block per file, and finding a file's display path.
 */
module Writer {
  import opened Names
  import opened Paths
  import opened Output

  /** The loop of `writeOutput` over the sorted files: each file's block
      in turn. */
  method RenderBlocks(roots: seq<Path>, sep: char, read: Path -> string, files: seq<Path>)
    returns (text: string)
    ensures text == Blocks(roots, sep, read, files)
  {
    text := "";
    for i := 0 to |files|
      invariant text == Blocks(roots, sep, read, files[..i])
    {
      var filePath := files[i];
      var relativePath := RelativePathOf(roots, sep, filePath);
      BlocksPrefix(roots, sep, read, files, i);
      text := text + Block(relativePath, read(filePath));
    }
    assert files[..|files|] == files;
  }

  /** `values()` of the map: one value per key, in whatever order the map
      yields them. */
  method CollectValues(m: map<string, Path>) returns (values: seq<Path>)
    ensures multiset(values) == multiset(ValueSeq(m))
  {
    values := [];
    var rest := m;
    while rest != map[]
      invariant multiset(values) + multiset(ValueSeq(rest)) == multiset(ValueSeq(m))
      decreases |rest|
    {
      var k :| k in rest;
      ValueSeqRemove(rest, k);
      values := values + [rest[k]];
      rest := rest - {k};
    }
  }

  /** The inner loop of `writeOutput`: the path relative to the first root
      the file lies under, with forward slashes, else the path itself. */
  method RelativePathOf(roots: seq<Path>, sep: char, filePath: Path) returns (relativePath: string)
    ensures relativePath == DisplayPath(roots, sep, filePath)
  {
    relativePath := filePath;
    var j := 0;
    while j < |roots|
      invariant 0 <= j <= |roots|
      invariant DisplayPath(roots, sep, filePath) == DisplayPath(roots[j..], sep, filePath)
    {
      if Under(roots[j], sep, filePath) {
        relativePath := Replace(filePath[|roots[j]| + 1..], '\\', '/');
        return;
      }
      assert roots[j..][1..] == roots[j + 1..];
      j := j + 1;
    }
  }
}
