/** Fragment ids, chunk file names and ring keys: decimal suffixes that can be read back unambiguously. */
module Names {
  function Digit(d: nat): (c: char)
    requires d < 10
    ensures '0' <= c <= '9'
  {
    '0' + d as char
  }

  function Decimal(n: nat): (s: string)
    ensures |s| > 0 && forall i :: 0 <= i < |s| ==> '0' <= s[i] <= '9'
  {
    if n < 10 then [Digit(n)] else Decimal(n / 10) + [Digit(n % 10)]
  }

  lemma {:induction false} DecimalInjective(m: nat, n: nat)
    requires Decimal(m) == Decimal(n)
    ensures m == n
  {
    var a, b := Decimal(m), Decimal(n);
    assert a[|a| - 1] == Digit(m % 10) && b[|b| - 1] == Digit(n % 10);
    assert m % 10 == n % 10;
    assert (m >= 10 <==> |a| > 1) && (n >= 10 <==> |b| > 1);
    if m >= 10 && n >= 10 {
      assert a[..|a| - 1] == Decimal(m / 10) && b[..|b| - 1] == Decimal(n / 10);
      DecimalInjective(m / 10, n / 10);
    }
  }

  /** A name, a separator and a number. */
  function Joined(name: string, sep: char, n: nat): string {
    name + [sep] + Decimal(n)
  }

  /** In a joined name nothing after the name's own separator looks like one. */
  lemma SepPosition(name: string, sep: char, n: nat)
    requires !('0' <= sep <= '9')
    ensures var s := Joined(name, sep, n);
      && |name| < |s| && s[|name|] == sep && s[..|name|] == name && s[|name| + 1..] == Decimal(n)
      && forall i :: |name| < i < |s| ==> s[i] != sep
  {
    var s := Joined(name, sep, n);
    assert forall i :: |name| < i < |s| ==> s[i] == Decimal(n)[i - |name| - 1];
  }

  /** The last separator splits a joined name, whatever the name itself contains. */
  lemma JoinedInjective(name: string, m: nat, name': string, n: nat, sep: char)
    requires !('0' <= sep <= '9')
    requires Joined(name, sep, m) == Joined(name', sep, n)
    ensures name == name' && m == n
  {
    SepPosition(name, sep, m);
    SepPosition(name', sep, n);
    assert |name| == |name'|;
    DecimalInjective(m, n);
  }

  /** Fragment id: "<key>/<index>". */
  function FragmentID(key: string, index: nat): string {
    Joined(key, '/', index)
  }

  lemma FragmentIDInjective(key: string, i: nat, key': string, j: nat)
    requires FragmentID(key, i) == FragmentID(key', j)
    ensures key == key' && i == j
  {
    JoinedInjective(key, i, key', j, '/');
  }

  /** Every "/" replaced by "_". */
  function Escape(id: string): (s: string)
    ensures |s| == |id|
    ensures forall i :: 0 <= i < |id| ==> s[i] == if id[i] == '/' then '_' else id[i]
  {
    if id == "" then ""
    else [if id[0] == '/' then '_' else id[0]] + Escape(id[1..])
  }

  function ChunkPath(dir: string, id: string): string {
    dir + "/" + Escape(id) + ".chunk"
  }

  lemma ChunkPathByName(dir: string, a: string, b: string)
    ensures ChunkPath(dir, a) == ChunkPath(dir, b) <==> Escape(a) == Escape(b)
  {
    var p, q := ChunkPath(dir, a), ChunkPath(dir, b);
    assert p[|dir| + 1..|p| - 6] == Escape(a);
    assert q[|dir| + 1..|q| - 6] == Escape(b);
  }

  lemma EscapedID(key: string, i: nat)
    ensures Escape(FragmentID(key, i)) == Joined(Escape(key), '_', i)
  {
    var id, name := Escape(FragmentID(key, i)), Joined(Escape(key), '_', i);
    assert |id| == |name|;
    forall k | 0 <= k < |id| ensures id[k] == name[k] {
      assert k > |key| ==> FragmentID(key, i)[k] == Decimal(i)[k - |key| - 1];
    }
  }

  /** Two fragments share a chunk file exactly when their indices agree and their keys differ in nothing but "/" for
      "_". */
  lemma SameChunkPathIff(dir: string, key: string, i: nat, key': string, j: nat)
    ensures ChunkPath(dir, FragmentID(key, i)) == ChunkPath(dir, FragmentID(key', j)) <==>
      Escape(key) == Escape(key') && i == j
  {
    ChunkPathByName(dir, FragmentID(key, i), FragmentID(key', j));
    EscapedID(key, i);
    EscapedID(key', j);
    if Joined(Escape(key), '_', i) == Joined(Escape(key'), '_', j) {
      JoinedInjective(Escape(key), i, Escape(key'), j, '_');
    }
  }

  lemma NothingToEscape(key: string)
    requires '/' !in key
    ensures Escape(key) == key
  {
    assert forall k :: 0 <= k < |key| ==> key[k] in key;
  }

  /** Chunk files of different fragments are different files when the keys hold no "/". */
  lemma ChunkPathInjective(dir: string, key: string, i: nat, key': string, j: nat)
    requires '/' !in key && '/' !in key'
    ensures ChunkPath(dir, FragmentID(key, i)) == ChunkPath(dir, FragmentID(key', j)) <==> key == key' && i == j
  {
    SameChunkPathIff(dir, key, i, key', j);
    NothingToEscape(key);
    NothingToEscape(key');
  }

  /** A key with a "/" shares the files of the key that has "_" in its place. */
  lemma ChunkPathsCollide(dir: string, key: string, i: nat)
    requires '/' in key
    ensures Escape(key) != key && FragmentID(key, i) != FragmentID(Escape(key), i)
    ensures ChunkPath(dir, FragmentID(key, i)) == ChunkPath(dir, FragmentID(Escape(key), i))
  {
    var k :| 0 <= k < |key| && key[k] == '/';
    assert Escape(key)[k] != key[k];
    if FragmentID(key, i) == FragmentID(Escape(key), i) {
      FragmentIDInjective(key, i, Escape(key), i);
    }
    NothingToEscape(Escape(key));
    SameChunkPathIff(dir, key, i, Escape(key), i);
  }
}
