/** The meaning of a trie: a 16-ary, path-compressed tree and the lookups it answers.
    Nothing here knows about memory or disk. */
module Trie {
  type Nibble = n: nat | n < 16
  type Key = seq<Nibble>
  type Byte = b: nat | b < 256
  type Bytes = seq<Byte>

  datatype Option<+T> = None | Some(value: T)

  /** `kids[b]` is the subtrie below branch `b`; its keys start after that nibble. */
  datatype Tree = Tree(path: Key, value: Option<Bytes>, version: int, kids: Kids)

  type Kids = seq<Option<Tree>>

  const BRANCHES := 16

  datatype Result =
    | Success
    | VersionNoLongerExist
    | RootNodeIsNull
    | KeyMismatch
    | BranchNotExist
    | KeyEndsEarlier
    | NeedToContinueInIoThread

  datatype Found = Found(node: Tree, index: nat, res: Result)

  function KidAt(kids: Kids, b: Nibble): Option<Tree> {
    if b < |kids| then kids[b] else None
  }

  function Kid(t: Tree, b: Nibble): Option<Tree> {
    KidAt(t.kids, b)
  }

  /** The nibble-at-a-time search, starting `i` nibbles into the path of `t`. */
  function Find(t: Tree, i: nat, key: Key): (f: Found)
    requires i <= |t.path|
    decreases key
  {
    if key == [] then
      Found(t, i, if i == |t.path| then Success else KeyEndsEarlier)
    else if i == |t.path| then
      match Kid(t, key[0])
      case None => Found(t, i, BranchNotExist)
      case Some(c) => Find(c, 0, key[1..])
    else if key[0] != t.path[i] then
      Found(t, i, KeyMismatch)
    else
      Find(t, i + 1, key[1..])
  }

  /** The subtrie whose root sits exactly at `key`: whole paths at a time. */
  function At(t: Tree, key: Key): (r: Option<Tree>)
    decreases t
  {
    if !(t.path <= key) then None
    else if |key| == |t.path| then Some(t)
    else
      match Kid(t, key[|t.path|])
      case None => None
      case Some(c) => At(c, key[|t.path| + 1..])
  }

  /** The subtrie entered by the nibbles `p`: whole paths, each with a branch behind it. */
  function BranchedTo(t: Tree, p: Key): (r: Option<Tree>)
    decreases t
  {
    if p == [] then Some(t)
    else if |t.path| < |p| && t.path <= p then
      match Kid(t, p[|t.path|])
      case None => None
      case Some(c) => BranchedTo(c, p[|t.path| + 1..])
    else None
  }

  lemma {:induction false} BranchedOn(t: Tree, p: Key, q: Key)
    requires BranchedTo(t, p).Some?
    ensures BranchedTo(t, p + q) == BranchedTo(BranchedTo(t, p).value, q)
    decreases t
  {
    if p == [] {
      assert [] + q == q;
    } else {
      var n := |t.path| + 1;
      assert (p + q)[..n - 1] == p[..n - 1] && (p + q)[n..] == p[n..] + q;
      BranchedOn(Kid(t, p[n - 1]).value, p[n..], q);
    }
  }

  lemma BranchedToNothing(t: Tree)
    ensures BranchedTo(t, []) == Some(t)
  {
  }

  lemma {:induction false} BranchedIsLess(t: Tree, p: Key)
    requires BranchedTo(t, p).Some? && p != []
    ensures BranchedTo(t, p).value < t
    decreases t
  {
    var n := |t.path| + 1;
    if p[n..] != [] {
      BranchedIsLess(Kid(t, p[n - 1]).value, p[n..]);
    }
  }

  /** A branch on the way to `key` that leads to a subtrie, by its position. */
  predicate Branches(t: Tree, key: Key, j: nat) {
    j < |key| && BranchedTo(t, key[..j + 1]).Some?
  }

  /** Below a subtrie that is entered at `at`, the way goes on inside its path, and then through one branch. */
  lemma BranchesBelow(t: Tree, key: Key, at: nat, j: nat)
    requires at <= j < |key| && BranchedTo(t, key[..at]).Some?
    ensures var c := BranchedTo(t, key[..at]).value; var n := at + |c.path|;
      && (j < n ==> !Branches(t, key, j))
      && (Branches(t, key, j) ==> n <= j && c.path == key[at..n] && Kid(c, key[n]).Some?)
      && (j == n && c.path == key[at..n] && Kid(c, key[n]).Some? ==>
            Branches(t, key, j) && BranchedTo(t, key[..j + 1]) == Kid(c, key[n]))
  {
    hide BranchedTo;
    var c, q := BranchedTo(t, key[..at]).value, key[at..j + 1];
    BranchedOn(t, key[..at], q);
    assert key[..at] + q == key[..j + 1];
    BranchedFirst(c, q);
    var n := at + |c.path|;
    if n <= j {
      assert q[..|c.path|] == key[at..n] && q[|c.path|] == key[n];
    }
  }

  /** The first branch that a way takes. */
  lemma BranchedFirst(t: Tree, q: Key)
    requires q != []
    ensures BranchedTo(t, q).Some? ==> |t.path| < |q| && q[..|t.path|] == t.path && Kid(t, q[|t.path|]).Some?
    ensures |q| == |t.path| + 1 && q[..|t.path|] == t.path && Kid(t, q[|t.path|]).Some? ==> BranchedTo(t, q) == Kid(t, q[|t.path|])
  {
    if |q| == |t.path| + 1 {
      assert q[|t.path| + 1..] == [];
    }
  }

  /** The key-value map a trie stands for. */
  function Value(t: Tree, key: Key): Option<Bytes> {
    match At(t, key)
    case None => None
    case Some(n) => n.value
  }

  /** The two searches agree: success, and only success, finds the node At the key. */
  lemma {:induction false} FindIsAt(t: Tree, i: nat, key: Key)
    requires i <= |t.path|
    ensures var f := Find(t, i, key);
            At(t, t.path[..i] + key) == if f.res.Success? then Some(f.node) else None
    ensures Find(t, i, key).res in {Success, KeyMismatch, BranchNotExist, KeyEndsEarlier}
    ensures Find(t, i, key).index <= |Find(t, i, key).node.path|
    decreases key
  {
    var k := t.path[..i] + key;
    if key == [] {
    } else if i == |t.path| {
      assert k[|t.path|] == key[0] && k[|t.path| + 1..] == key[1..];
      if Kid(t, key[0]).Some? {
        var c := Kid(t, key[0]).value;
        FindIsAt(c, 0, key[1..]);
        assert c.path[..0] + key[1..] == key[1..];
      }
    } else if key[0] != t.path[i] {
      assert k[i] == key[0];
    } else {
      FindIsAt(t, i + 1, key[1..]);
      assert t.path[..i + 1] + key[1..] == k;
    }
  }

  /** The oldest version of any node of the subtrie. */
  function MinVersion(t: Tree): int
    decreases t, BRANCHES + 1
  {
    MinKids(t, BRANCHES)
  }

  function MinKids(t: Tree, b: nat): int
    requires b <= BRANCHES
    decreases t, b
  {
    if b == 0 then t.version
    else
      match Kid(t, b - 1)
      case None => MinKids(t, b - 1)
      case Some(c) => Min(MinKids(t, b - 1), MinVersion(c))
  }

  function Min(a: int, b: int): int { if a < b then a else b }
}
