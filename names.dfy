/**
 Qualified class names and the source-relative file names they map to.
 */
module Names {

  /** True when `name.split("\\$")[0]` throws: every piece of the split is
      empty and Java drops trailing empty pieces, leaving an empty array. */
  predicate SplitThrows(name: string) {
    |name| > 0 && forall i :: 0 <= i < |name| ==> name[i] == '$'
  }

  /** The outer class name: everything before the first `$`. */
  function MainClassName(name: string): (r: string)
    ensures r <= name
    ensures '$' !in r
    ensures |r| < |name| ==> name[|r|] == '$'
  {
    if name == [] || name[0] == '$' then [] else [name[0]] + MainClassName(name[1..])
  }

  /** Every occurrence of `from` in `s` replaced by `to`. */
  function Replace(s: string, from: char, to: char): (r: string)
    ensures |r| == |s|
    ensures forall i :: 0 <= i < |s| ==> r[i] == (if s[i] == from then to else s[i])
  {
    if s == [] then [] else [if s[0] == from then to else s[0]] + Replace(s[1..], from, to)
  }

  /** The file name of a class relative to a source root, with `sep` as the
      platform's name separator. */
  function RelativePath(name: string, sep: char): string {
    Replace(MainClassName(name), '.', sep) + ".java"
  }

  /** A nested class `Outer$Inner` lives in its outer class's file. */
  lemma NestedSharesFile(outer: string, inner: string, sep: char)
    requires '$' !in outer
    ensures MainClassName(outer + "$" + inner) == outer
    ensures RelativePath(outer + "$" + inner, sep) == RelativePath(outer, sep)
  {
    var name := outer + "$" + inner;
    var r := MainClassName(name);
    assert name[|outer|] == '$';
    assert r == name[..|outer|] == outer;
    assert MainClassName(outer) == outer by { NoDollarIsMain(outer); }
  }

  /** A name without `$` is its own outer class name. */
  lemma {:induction false} NoDollarIsMain(name: string)
    requires '$' !in name
    ensures MainClassName(name) == name
  {
    if name != [] {
      assert '$' !in name[1..] by {
        forall i | 0 <= i < |name[1..]| ensures name[1..][i] != '$' {
          assert name[1..][i] == name[i + 1];
        }
      }
      NoDollarIsMain(name[1..]);
    }
  }

  /** Names in the JDK's own packages, which are never followed. */
  predicate IsJdk(name: string) {
    "java." <= name || "javax." <= name
  }
}
