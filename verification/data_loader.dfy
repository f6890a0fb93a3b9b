/** The state update of `DataLoader::load`: each parsed `user item weight`
    line gives a first-seen user the next row (a fresh row of
    `ItemDimension` zeros), gives a first-seen item the next column index,
    and stores the weight when that column lies inside the row. Reading the
    file and parsing its lines are outside the model: a line arrives already
    parsed, or as `None` when `iss >> user_id >> item_id >> weight` fails. */
module DataLoading {

  datatype Option<T> = None | Some(value: T)

  /** One line of the interaction log: `(user_id, item_id, weight)`. */
  type Line = Option<(int, int, real)>

  /** `item_dimension_`: the width of every row of the matrix. */
  const ItemDimension: nat := 128

  /** A row of `n` zeros, as `emplace_back(item_dimension_, 0.0f)` appends. */
  function Zeros(n: nat): (row: seq<real>)
    ensures |row| == n && forall c :: 0 <= c < n ==> row[c] == 0.0
  {
    seq(n, _ => 0.0)
  }

  /** The three containers `load` updates. */
  datatype LoaderState = LoaderState(users: map<int, nat>, items: map<int, nat>, matrix: seq<seq<real>>)

  /** The state no line has touched yet. */
  const Empty := LoaderState(map[], map[], [])

  /** Some key of `ids` is mapped to `n`. */
  ghost predicate Taken(ids: map<int, nat>, n: nat) {
    exists k :: k in ids && ids[k] == n
  }

  /** User ids map one-to-one onto the rows `0..|matrix|`, item ids one-to-one
      onto `0..|items|`, and every row is `ItemDimension` wide. */
  ghost predicate WellFormed(s: LoaderState) {
    |s.users| == |s.matrix| &&
    (forall u :: u in s.users ==> s.users[u] < |s.matrix|) &&
    (forall u, v :: u in s.users && v in s.users && u != v ==> s.users[u] != s.users[v]) &&
    (forall r: nat :: r < |s.matrix| ==> Taken(s.users, r)) &&
    (forall i :: i in s.items ==> s.items[i] < |s.items|) &&
    (forall i, j :: i in s.items && j in s.items && i != j ==> s.items[i] != s.items[j]) &&
    (forall c: nat :: c < |s.items| ==> Taken(s.items, c)) &&
    (forall r :: 0 <= r < |s.matrix| ==> |s.matrix[r]| == ItemDimension)
  }

  /** `user_id_map_` gains `user` at the next row, and the matrix one zero
      row, unless `user` already has a row. */
  function AddUser(s: LoaderState, user: int): (t: LoaderState)
    requires WellFormed(s)
    ensures WellFormed(t) && user in t.users && t.items == s.items
  {
    if user in s.users then s
    else
      var t := s.(users := s.users[user := |s.matrix|], matrix := s.matrix + [Zeros(ItemDimension)]);
      assert forall r: nat :: r < |t.matrix| ==> Taken(t.users, r) by {
        forall r: nat | r < |t.matrix| ensures Taken(t.users, r) {
          if r < |s.matrix| {
            assert Taken(s.users, r);
            var u :| u in s.users && s.users[u] == r;
            assert t.users[u] == r;
          } else {
            assert t.users[user] == r;
          }
        }
      }
      t
  }

  /** `item_id_map_` gains `item` at index `|items|` unless it has one. */
  function AddItem(s: LoaderState, item: int): (t: LoaderState)
    requires WellFormed(s)
    ensures WellFormed(t) && item in t.items && t.users == s.users && t.matrix == s.matrix
  {
    if item in s.items then s
    else
      var t := s.(items := s.items[item := |s.items|]);
      assert forall c: nat :: c < |t.items| ==> Taken(t.items, c) by {
        forall c: nat | c < |t.items| ensures Taken(t.items, c) {
          if c < |s.items| {
            assert Taken(s.items, c);
            var i :| i in s.items && s.items[i] == c;
            assert t.items[i] == c;
          } else {
            assert t.items[item] == c;
          }
        }
      }
      t
  }

  /** `user_item_matrix_[user_idx][item_idx] = weight` when `item_idx` is
      below `ItemDimension`; nothing otherwise. */
  function Store(s: LoaderState, user: int, item: int, weight: real): (t: LoaderState)
    requires WellFormed(s) && user in s.users && item in s.items
    ensures WellFormed(t) && t.users == s.users && t.items == s.items
  {
    var row := s.users[user];
    var col := s.items[item];
    if col < ItemDimension then s.(matrix := s.matrix[row := s.matrix[row][col := weight]])
    else s
  }

  /** What one pass of the `while (getline(...))` body does to the state. A
      first-seen item takes the index `|items|`, the size before insertion,
      as C++17 sequences the right operand of `=` before `operator[]`. */
  function Ingest(s: LoaderState, line: Line): (t: LoaderState)
    requires WellFormed(s)
    ensures WellFormed(t)
    ensures line.None? ==> t == s
  {
    match line
    case None => s
    case Some((user, item, weight)) => Store(AddItem(AddUser(s, user), item), user, item, weight)
  }

  /** The state after feeding `lines`, in order, starting from `s`. */
  function IngestAll(s: LoaderState, lines: seq<Line>): (t: LoaderState)
    requires WellFormed(s)
    ensures WellFormed(t)
    decreases |lines|
  {
    if lines == [] then s
    else Ingest(IngestAll(s, lines[..|lines| - 1]), lines[|lines| - 1])
  }

  /** Feeding the first `n + 1` lines is feeding the first `n`, then line `n`. */
  lemma IngestAllSnoc(s: LoaderState, lines: seq<Line>, n: nat)
    requires WellFormed(s) && n < |lines|
    ensures IngestAll(s, lines[..n + 1]) == Ingest(IngestAll(s, lines[..n]), lines[n])
  {
    assert lines[..n + 1][..n] == lines[..n];
  }

  /** A parsed line: the user keeps its row or gets the next one with one new
      zero row; the item keeps its index or gets the next one; the weight
      lands in the cell of that row and column when the column is below
      `ItemDimension`, replacing what was there; no other cell changes. */
  lemma IngestEffect(s: LoaderState, user: int, item: int, weight: real)
    requires WellFormed(s)
    ensures var t := Ingest(s, Some((user, item, weight)));
      t.users == (if user in s.users then s.users else s.users[user := |s.matrix|]) &&
      t.items == (if item in s.items then s.items else s.items[item := |s.items|]) &&
      |t.matrix| == |s.matrix| + (if user in s.users then 0 else 1) &&
      forall r, c :: 0 <= r < |t.matrix| && 0 <= c < ItemDimension ==>
        t.matrix[r][c] ==
          if r == t.users[user] && c == t.items[item] then weight
          else if r < |s.matrix| then s.matrix[r][c]
          else 0.0
  {
  }

  /** Loading `a` and then `b` is loading `a + b`: repeated `load` calls
      accumulate, nothing is reset. */
  lemma {:induction false} IngestAllAppend(s: LoaderState, a: seq<Line>, b: seq<Line>)
    requires WellFormed(s)
    ensures IngestAll(s, a + b) == IngestAll(IngestAll(s, a), b)
    decreases |b|
  {
    if b == [] {
      assert a + b == a;
    } else {
      var b' := b[..|b| - 1];
      assert (a + b)[..|a + b| - 1] == a + b';
      IngestAllAppend(s, a, b');
    }
  }

  /** The `DataLoader` class. */
  class DataLoader {
    var userIdMap: map<int, nat>
    var itemIdMap: map<int, nat>
    var userItemMatrix: seq<seq<real>>

    function State(): LoaderState
      reads this
    {
      LoaderState(userIdMap, itemIdMap, userItemMatrix)
    }

    ghost predicate Valid()
      reads this
    {
      WellFormed(State())
    }

    constructor()
      ensures Valid() && State() == Empty
    {
      userIdMap := map[];
      itemIdMap := map[];
      userItemMatrix := [];
    }

    /** `load`, after the file is opened: every line in order, skipping
        those that do not parse. */
    method Load(lines: seq<Line>)
      requires Valid()
      modifies this
      ensures Valid()
      ensures State() == IngestAll(old(State()), lines)
    {
      var n := 0;
      while n < |lines|
        invariant 0 <= n <= |lines|
        invariant State() == IngestAll(old(State()), lines[..n])
      {
        IngestAllSnoc(old(State()), lines, n);
        IngestLine(lines[n]);
        n := n + 1;
      }
      assert lines[..n] == lines;
    }

    /** The body of the `while (getline(...))` loop of `load` for one line. */
    method IngestLine(line: Line)
      requires Valid()
      modifies this
      ensures State() == Ingest(old(State()), line)
    {
      if line.Some? {
        var (user, item, weight) := line.value;
        if user !in userIdMap {
          userIdMap := userIdMap[user := |userItemMatrix|];
          userItemMatrix := userItemMatrix + [Zeros(ItemDimension)];
        }
        assert State() == AddUser(old(State()), user);
        if item !in itemIdMap {
          itemIdMap := itemIdMap[item := |itemIdMap|];
        }
        ghost var added := State();
        assert added == AddItem(AddUser(old(State()), user), item);
        var userIdx := userIdMap[user];
        var itemIdx := itemIdMap[item];
        if itemIdx < ItemDimension {
          userItemMatrix := userItemMatrix[userIdx := userItemMatrix[userIdx][itemIdx := weight]];
        }
        assert State() == Store(added, user, item, weight);
      }
    }

    /** `get_user_item_matrix`: one `ItemDimension`-wide row per distinct user. */
    function GetUserItemMatrix(): (m: seq<seq<real>>)
      reads this
      requires Valid()
      ensures |m| == |userIdMap|
      ensures forall r :: 0 <= r < |m| ==> |m[r]| == ItemDimension
    {
      userItemMatrix
    }

    /** `get_item_dimension`: always 128. */
    function GetItemDimension(): (d: nat)
      ensures d == 128
    {
      ItemDimension
    }
  }
}
