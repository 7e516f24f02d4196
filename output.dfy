/**
 The text of the slice: a header naming the root and the depth, then one
 START/content/END block per collected file, the files in sorted order.
 */
module Output {
  import opened Paths
  import opened Ordering

  /** Decimal digits of `n`, as `%d` prints it. */
  function NatToString(n: nat): (r: string)
    ensures |r| > 0
    ensures forall i :: 0 <= i < |r| ==> '0' <= r[i] <= '9'
    ensures r[0] == '0' ==> n == 0 && r == "0"
  {
    var digit := ['0' + (n % 10) as char];
    if n < 10 then digit else NatToString(n / 10) + digit
  }

  function IntToString(i: int): (r: string)
    ensures |r| > 0
  {
    if i < 0 then "-" + NatToString(-i) else NatToString(i)
  }

  /** The number a string of decimal digits spells, most significant first. */
  function DigitsValue(s: string): int
    decreases |s|
  {
    if s == [] then 0 else DigitsValue(s[..|s| - 1]) * 10 + (s[|s| - 1] as int - '0' as int)
  }

  /** The digits of `n` spell `n`. */
  lemma {:induction false} NatToStringValue(n: nat)
    ensures DigitsValue(NatToString(n)) == n
    decreases n
  {
    var digit := ['0' + (n % 10) as char];
    if n >= 10 {
      var front := NatToString(n / 10);
      NatToStringValue(n / 10);
      assert (front + digit)[..|front|] == front;
    }
  }

  /** A negative number is written as a minus sign and the digits of its
      magnitude; any other as its digits alone. */
  lemma IntToStringValue(i: int)
    ensures i >= 0 ==> DigitsValue(IntToString(i)) == i
    ensures i < 0 ==> IntToString(i)[0] == '-' && DigitsValue(IntToString(i)[1..]) == -i
  {
    if i >= 0 {
      NatToStringValue(i);
    } else {
      NatToStringValue(-i);
      assert IntToString(i)[1..] == NatToString(-i);
    }
  }

  function Header(root: string, maxDepth: int): string {
    "### Codebase Slice starting from root: " + root + " (Depth: " + IntToString(maxDepth) + ") ###\n\n"
  }

  /** One file's block: both markers carry the same display path. */
  function Block(display: string, content: string): string {
    "--- START FILE: " + display + " ---\n" + content + "\n--- END FILE: " + display + " ---\n\n"
  }

  /** The blocks of `files`, in the order given. */
  function Blocks(roots: seq<Path>, sep: char, read: Path -> string, files: seq<Path>): string
    decreases |files|
  {
    if files == [] then ""
    else Block(DisplayPath(roots, sep, files[0]), read(files[0])) + Blocks(roots, sep, read, files[1..])
  }

  /** The blocks of two lists of files are the blocks of each, one after
      the other: every file's block stands on its own, in list order. */
  lemma {:induction false} BlocksAppend(roots: seq<Path>, sep: char, read: Path -> string, a: seq<Path>, b: seq<Path>)
    ensures Blocks(roots, sep, read, a + b) == Blocks(roots, sep, read, a) + Blocks(roots, sep, read, b)
    decreases |a|
  {
    if a == [] {
      assert a + b == b;
    } else {
      assert (a + b)[1..] == a[1..] + b;
      BlocksAppend(roots, sep, read, a[1..], b);
    }
  }

  /** One more file of the list adds its block. */
  lemma BlocksPrefix(roots: seq<Path>, sep: char, read: Path -> string, files: seq<Path>, i: nat)
    requires i < |files|
    ensures Blocks(roots, sep, read, files[..i + 1])
         == Blocks(roots, sep, read, files[..i]) + Block(DisplayPath(roots, sep, files[i]), read(files[i]))
  {
    assert files[..i + 1] == files[..i] + [files[i]];
    BlocksAppend(roots, sep, read, files[..i], [files[i]]);
    assert [files[i]][1..] == [];
  }

  /** Some key of a non-empty map. */
  ghost function AnyKey(m: map<string, Path>): (k: string)
    requires m != map[]
    ensures k in m
  {
    var k :| k in m; k
  }

  /** The values of `m`, one per key (equal values are kept), in some order. */
  ghost function ValueSeq(m: map<string, Path>): (r: seq<Path>)
    ensures |r| == |m|
    decreases |m|
  {
    if m == map[] then []
    else
      var k := AnyKey(m);
      assert m.Keys == (m - {k}).Keys + {k};
      [m[k]] + ValueSeq(m - {k})
  }

  /** A path is among the values exactly when some entry maps to it. */
  lemma {:induction false} ValueSeqValues(m: map<string, Path>, p: Path)
    ensures p in ValueSeq(m) <==> exists k :: k in m && m[k] == p
    decreases |m|
  {
    if m != map[] {
      var k := AnyKey(m);
      var rest := m - {k};
      assert |rest| < |m| by { assert m.Keys == rest.Keys + {k}; }
      ValueSeqValues(rest, p);
      assert ValueSeq(m) == [m[k]] + ValueSeq(rest);
      if p in ValueSeq(m) && p != m[k] {
        var k' :| k' in rest && rest[k'] == p;
        assert m[k'] == p;
      }
      if exists k' :: k' in m && m[k'] == p {
        var k' :| k' in m && m[k'] == p;
        if k' != k {
          assert rest[k'] == p;
        }
      }
    }
  }

  /** The values of `m` are the value at any one key and the values of the
      rest, whichever key is taken first. */
  lemma {:induction false} ValueSeqRemove(m: map<string, Path>, k: string)
    requires k in m
    ensures multiset(ValueSeq(m)) == multiset{m[k]} + multiset(ValueSeq(m - {k}))
    decreases |m|
  {
    var k0 := AnyKey(m);
    if k0 != k {
      var m0, mk := m - {k0}, m - {k};
      var rest := m0 - {k};
      assert mk - {k0} == rest;
      assert |m0| < |m| by { assert m.Keys == m0.Keys + {k0}; }
      assert |mk| < |m| by { assert m.Keys == mk.Keys + {k}; }
      ValueSeqRemove(m0, k);
      ValueSeqRemove(mk, k0);
      assert ValueSeq(m) == [m[k0]] + ValueSeq(m0);
      assert m0[k] == m[k];
      assert mk[k0] == m[k0];
    }
  }

  /** The whole output for the entries `m`: the header, then the blocks of
      its values in sorted order. */
  ghost function Render(root: string, maxDepth: int, roots: seq<Path>, sep: char, read: Path -> string,
                        m: map<string, Path>): string
  {
    Header(root, maxDepth) + Blocks(roots, sep, read, Sort(ValueSeq(m)))
  }
}
