// The array-backed AVL tree of src/rust/avl_tree.rs: nodes live in a vector
// laid out as a binary heap (the children of slot i are slots 2i+1 and
// 2i+2), and `find_insert_index` walks from the root comparing the new value
// with each occupied slot. `insert` is still a stub that only searches.
//
// A Rust panic (an index past the end of the vector, or `unwrap` on an empty
// slot) is the `Panic` outcome. `T: Ord` is a comparison function passed in.

module AvlTree {
  import opened Wrappers

  datatype Ordering = Less | Equal | Greater

  newtype u8 = x: int | 0 <= x < 0x100

  /** A slot of the vector: a value, or none for a hole. */
  datatype Node<T> = Node(value: Option<T>, height: u8)

  datatype Tree<T> = Tree(data: seq<Node<T>>)

  /** The outcome of `find_insert_index`: `None`, `Some(index)`, or a panic. */
  datatype Probe = Duplicate | InsertAt(index: nat) | Panic

  /** `AvlTree::new`: an empty vector. */
  function New<T>(): (t: Tree<T>)
    ensures |t.data| == 0
  {
    Tree([])
  }

  /** `get_left_child_index`. */
  function Left(parent: nat): (child: nat)
    ensures child > parent && child % 2 == 1 && (child - 1) / 2 == parent
  {
    2 * parent + 1
  }

  /** `get_right_child_index`. */
  function Right(parent: nat): (child: nat)
    ensures child > parent && child > 0 && child % 2 == 0 && (child - 1) / 2 == parent
  {
    2 * parent + 2
  }

  /** The step taken from an occupied slot: the child to visit, or the end of the search. */
  function Step<T>(data: seq<Node<T>>, value: T, cmp: (T, T) -> Ordering, index: nat): Option<nat>
    requires index < |data| && data[index].value.Some?
  {
    match cmp(value, data[index].value.value)
    case Less => Some(Left(index))
    case Greater => Some(Right(index))
    case Equal => None
  }

  /** The loop of `find_insert_index` from slot `index` on. */
  function SearchFrom<T>(data: seq<Node<T>>, value: T, cmp: (T, T) -> Ordering, index: nat): (r: Probe)
    requires index < |data|
    ensures r.InsertAt? ==> r.index >= |data|
    decreases |data| - index
  {
    if data[index].value.None? then Panic
    else
      match Step(data, value, cmp, index)
      case None => Duplicate
      case Some(next) => if next >= |data| then InsertAt(next) else SearchFrom(data, value, cmp, next)
  }

  /** `find_insert_index`: the search from the root, which panics on an empty vector. */
  function FindInsertIndexSpec<T>(tree: Tree<T>, value: T, cmp: (T, T) -> Ordering): (r: Probe)
    ensures r.InsertAt? ==> r.index >= |tree.data|
    ensures |tree.data| == 0 ==> r == Panic
  {
    if |tree.data| == 0 then Panic else SearchFrom(tree.data, value, cmp, 0)
  }

  /** The slots the search visits from `index` on, the last being where it stops or leaves the vector. */
  function PathFrom<T>(data: seq<Node<T>>, value: T, cmp: (T, T) -> Ordering, index: nat): (path: seq<nat>)
    requires index < |data|
    ensures |path| > 0 && path[0] == index
    ensures forall k :: 0 <= k < |path| ==> index <= path[k] < |data|
    decreases |data| - index
  {
    if data[index].value.None? then [index]
    else
      match Step(data, value, cmp, index)
      case None => [index]
      case Some(next) => if next >= |data| then [index] else [index] + PathFrom(data, value, cmp, next)
  }

  /**
   * The visited slots strictly increase, each is a child of the one before
   * it, and every slot but the last is occupied by a value that does not
   * compare Equal.
   */
  lemma {:induction false} PathShape<T>(data: seq<Node<T>>, value: T, cmp: (T, T) -> Ordering, index: nat)
    requires index < |data|
    ensures PathLinked(data, value, cmp, PathFrom(data, value, cmp, index))
    decreases |data| - index
  {
    if data[index].value.Some? && Step(data, value, cmp, index).Some? {
      var next := Step(data, value, cmp, index).value;
      if next < |data| {
        var path := PathFrom(data, value, cmp, index);
        var rest := PathFrom(data, value, cmp, next);
        PathShape(data, value, cmp, next);
        assert path == [index] + rest;
        forall k | 0 <= k < |path| - 1
          ensures path[k] < path[k + 1] && data[path[k]].value.Some? && Step(data, value, cmp, path[k]) == Some(path[k + 1])
        {
          if k == 0 {
            assert path[0] == index && path[1] == rest[0] == next;
          } else {
            assert path[k] == rest[k - 1] && path[k + 1] == rest[k];
          }
        }
      }
    }
  }

  /** Each slot of `path` but the last is occupied and steps to the next one, which lies further on. */
  ghost predicate PathLinked<T>(data: seq<Node<T>>, value: T, cmp: (T, T) -> Ordering, path: seq<nat>)
    requires forall k :: 0 <= k < |path| ==> path[k] < |data|
  {
    forall k :: 0 <= k < |path| - 1 ==>
      && path[k] < path[k + 1]
      && data[path[k]].value.Some?
      && Step(data, value, cmp, path[k]) == Some(path[k + 1])
  }

  /** A slot on the path that holds a value comparing Equal to the one being inserted. */
  ghost predicate EqualOnPath<T>(data: seq<Node<T>>, value: T, cmp: (T, T) -> Ordering, path: seq<nat>)
    requires forall k :: 0 <= k < |path| ==> path[k] < |data|
  {
    exists k :: 0 <= k < |path| && data[path[k]].value.Some? && cmp(value, data[path[k]].value.value) == Equal
  }

  /** A hole on the path. */
  ghost predicate HoleOnPath<T>(data: seq<Node<T>>, path: seq<nat>)
    requires forall k :: 0 <= k < |path| ==> path[k] < |data|
  {
    exists k :: 0 <= k < |path| && data[path[k]].value.None?
  }

  /**
   * The search reports a duplicate exactly when a value comparing Equal
   * lies on its path, panics exactly when the path runs into a hole, and
   * otherwise returns the child slot past the end of the vector that the
   * last visited slot points to.
   */
  lemma {:induction false} SearchOutcome<T>(data: seq<Node<T>>, value: T, cmp: (T, T) -> Ordering, index: nat)
    requires index < |data|
    ensures var path := PathFrom(data, value, cmp, index);
      && (SearchFrom(data, value, cmp, index) == Duplicate <==> EqualOnPath(data, value, cmp, path))
      && (SearchFrom(data, value, cmp, index) == Panic <==> HoleOnPath(data, path))
    ensures var path := PathFrom(data, value, cmp, index);
      SearchFrom(data, value, cmp, index).InsertAt? ==>
        && data[path[|path| - 1]].value.Some?
        && Step(data, value, cmp, path[|path| - 1]) == Some(SearchFrom(data, value, cmp, index).index)
    decreases |data| - index
  {
    var path := PathFrom(data, value, cmp, index);
    if data[index].value.None? {
      assert HoleOnPath(data, path) by { assert data[path[0]].value.None?; }
    } else if Step(data, value, cmp, index).None? {
      assert EqualOnPath(data, value, cmp, path) by { assert path[0] == index; }
    } else {
      var next := Step(data, value, cmp, index).value;
      assert cmp(value, data[index].value.value) != Equal;
      if next < |data| {
        var rest := PathFrom(data, value, cmp, next);
        SearchOutcome(data, value, cmp, next);
        assert path == [index] + rest;
        assert EqualOnPath(data, value, cmp, path) <==> EqualOnPath(data, value, cmp, rest) by {
          if EqualOnPath(data, value, cmp, path) {
            var k :| 0 <= k < |path| && data[path[k]].value.Some? && cmp(value, data[path[k]].value.value) == Equal;
            assert k > 0 && path[k] == rest[k - 1];
          }
          if EqualOnPath(data, value, cmp, rest) {
            var k :| 0 <= k < |rest| && data[rest[k]].value.Some? && cmp(value, data[rest[k]].value.value) == Equal;
            assert path[k + 1] == rest[k];
          }
        }
        assert HoleOnPath(data, path) <==> HoleOnPath(data, rest) by {
          if HoleOnPath(data, path) {
            var k :| 0 <= k < |path| && data[path[k]].value.None?;
            assert k > 0 && path[k] == rest[k - 1];
          }
          if HoleOnPath(data, rest) {
            var k :| 0 <= k < |rest| && data[rest[k]].value.None?;
            assert path[k + 1] == rest[k];
          }
        }
      } else {
        assert path == [index];
      }
    }
  }

  /** The search of `find_insert_index` never reports a duplicate when no slot on its path holds an equal value. */
  lemma NoDuplicateWithoutEqual<T>(tree: Tree<T>, value: T, cmp: (T, T) -> Ordering)
    requires |tree.data| > 0
    requires forall i :: 0 <= i < |tree.data| && tree.data[i].value.Some? ==> cmp(value, tree.data[i].value.value) != Equal
    ensures FindInsertIndexSpec(tree, value, cmp) != Duplicate
  {
    SearchOutcome(tree.data, value, cmp, 0);
  }

  /** In a vector without holes the search never panics. */
  lemma FullTreeNeverPanics<T>(tree: Tree<T>, value: T, cmp: (T, T) -> Ordering)
    requires |tree.data| > 0
    requires forall i :: 0 <= i < |tree.data| ==> tree.data[i].value.Some?
    ensures FindInsertIndexSpec(tree, value, cmp) != Panic
  {
    SearchOutcome(tree.data, value, cmp, 0);
  }

  /** `find_insert_index`: the loop over `index`. */
  method FindInsertIndex<T>(tree: Tree<T>, value: T, cmp: (T, T) -> Ordering) returns (r: Probe)
    ensures r == FindInsertIndexSpec(tree, value, cmp)
  {
    var data := tree.data;
    if |data| == 0 {
      return Panic;
    }
    var index: nat := 0;
    while true
      invariant index < |data|
      invariant SearchFrom(data, value, cmp, index) == SearchFrom(data, value, cmp, 0)
      decreases |data| - index
    {
      var slot := data[index].value;
      if slot.None? {
        return Panic;
      }
      match cmp(value, slot.value) {
        case Less =>
          index := Left(index);
        case Equal =>
          return Duplicate;
        case Greater =>
          index := Right(index);
      }
      if index >= |data| {
        return InsertAt(index);
      }
    }
  }

  /**
   * `insert`: searches for the slot and discards it, so the tree stays as
   * it was; `panics` says whether the search panicked.
   */
  method Insert<T>(tree: Tree<T>, value: T, cmp: (T, T) -> Ordering) returns (after: Tree<T>, panics: bool)
    ensures after == tree
    ensures panics <==> FindInsertIndexSpec(tree, value, cmp) == Panic
    ensures panics <==> |tree.data| == 0 || HoleOnPath(tree.data, PathFrom(tree.data, value, cmp, 0))
  {
    var index := FindInsertIndex(tree, value, cmp);
    if |tree.data| > 0 {
      SearchOutcome(tree.data, value, cmp, 0);
    }
    return tree, index == Panic;
  }
}
