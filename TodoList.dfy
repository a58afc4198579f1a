/** The todo list as a value, and the four transformations the store applies
    to it (todo-app/context/TodoContext.tsx). Each store operation replaces its
    list with one of these functions of the old list; the lemmas below state
    what the transformations promise. */
module TodoList {
  import opened Text

  /** Where an item came from: typed by hand or produced by the generator. */
  datatype Source = Manual | Ai

  /** One todo record (todo-app/types/Todo.ts). */
  datatype Todo = Todo(id: string, text: string, completed: bool, source: Source)

  /** A stored text is already trimmed and is not empty. */
  predicate WellFormed(t: Todo) {
    t.text != [] && Trim(t.text) == t.text
  }

  predicate AllWellFormed(todos: seq<Todo>) {
    forall k :: 0 <= k < |todos| ==> WellFormed(todos[k])
  }

  predicate HasId(todos: seq<Todo>, id: string) {
    exists k :: 0 <= k < |todos| && todos[k].id == id
  }

  /** No two items share an id. */
  predicate DistinctIds(todos: seq<Todo>) {
    forall i, j :: 0 <= i < j < |todos| ==> todos[i].id != todos[j].id
  }

  /** `a` is `b` with some elements left out and the rest in their order. */
  ghost predicate IsSubsequence<T>(a: seq<T>, b: seq<T>) {
    if a == [] then true
    else if b == [] then false
    else (a[0] == b[0] && IsSubsequence(a[1..], b[1..])) || IsSubsequence(a, b[1..])
  }

  // ---------------------------------------------------------------------------
  // addTodo

  /** The list after `addTodo(text, source)` with the fresh id `id`: a blank
      text is ignored, any other is trimmed and appended as an open item. */
  function Add(todos: seq<Todo>, text: string, id: string, source: Source): (r: seq<Todo>)
    ensures |r| == |todos| + (if IsBlank(text) then 0 else 1)
    ensures r[..|todos|] == todos
    ensures AllWellFormed(todos) ==> AllWellFormed(r)
  {
    TrimIdempotent(text);
    if IsBlank(text) then todos
    else todos + [Todo(id, Trim(text), false, source)]
  }

  /** A blank text leaves the list as it was; any other text adds exactly one
      item at the end, carrying the trimmed text, the given source and the
      fresh id, not completed, and leaves the earlier items untouched. */
  lemma AddAppendsOne(todos: seq<Todo>, text: string, id: string, source: Source)
    ensures IsBlank(text) <==> Add(todos, text, id, source) == todos
    ensures !IsBlank(text) ==>
      var r := Add(todos, text, id, source);
      |r| == |todos| + 1 && r[..|todos|] == todos
      && r[|todos|] == Todo(id, Trim(text), false, source)
  {
  }

  lemma AddPreservesWellFormed(todos: seq<Todo>, text: string, id: string, source: Source)
    requires AllWellFormed(todos)
    ensures AllWellFormed(Add(todos, text, id, source))
  {
  }

  /** An item added with an id not yet in the list keeps the ids distinct. */
  lemma AddPreservesDistinctIds(todos: seq<Todo>, text: string, id: string, source: Source)
    requires DistinctIds(todos) && !HasId(todos, id)
    ensures DistinctIds(Add(todos, text, id, source))
  {
  }

  // ---------------------------------------------------------------------------
  // addMultipleTodos

  /** `texts.filter(t => t.trim() !== '')`. */
  function NonBlank(texts: seq<string>): (kept: seq<string>)
    ensures |kept| <= |texts|
    ensures forall k :: 0 <= k < |kept| ==> !IsBlank(kept[k])
  {
    if texts == [] then []
    else if IsBlank(texts[0]) then NonBlank(texts[1..])
    else [texts[0]] + NonBlank(texts[1..])
  }

  /** The filter drops everything exactly when every entry is blank. */
  lemma {:induction false} NonBlankEmptyIffAllBlank(texts: seq<string>)
    ensures NonBlank(texts) == [] <==> forall k :: 0 <= k < |texts| ==> IsBlank(texts[k])
  {
    if texts != [] && IsBlank(texts[0]) {
      NonBlankEmptyIffAllBlank(texts[1..]);
      assert forall k :: 1 <= k < |texts| ==> texts[k] == texts[1..][k - 1];
    }
  }

  /** The filter keeps every non-blank entry as often as it occurs and drops
      every blank one. */
  lemma {:induction false} NonBlankCounts(texts: seq<string>)
    ensures forall x :: multiset(NonBlank(texts))[x] == if IsBlank(x) then 0 else multiset(texts)[x]
  {
    if texts != [] {
      NonBlankCounts(texts[1..]);
      assert texts == [texts[0]] + texts[1..];
    }
  }

  /** The filter keeps the order of the entries it keeps. */
  lemma {:induction false} NonBlankIsSubsequence(texts: seq<string>)
    ensures IsSubsequence(NonBlank(texts), texts)
  {
    if texts != [] {
      NonBlankIsSubsequence(texts[1..]);
      var kept := NonBlank(texts);
      if !IsBlank(texts[0]) {
        assert kept[1..] == NonBlank(texts[1..]);
      }
    }
  }

  /** `.map((text, index) => ({ id, text: text.trim(), completed: false, source }))`
      over the kept entries; `mint(index)` is the fresh id the clock and the
      random suffix produce for the entry at `index` of the filtered list. */
  function NewTodos(texts: seq<string>, source: Source, mint: nat -> string): (r: seq<Todo>)
    ensures |r| == |NonBlank(texts)|
    ensures forall k :: 0 <= k < |r| ==>
      r[k].id == mint(k) && WellFormed(r[k]) && !r[k].completed && r[k].source == source
  {
    var kept := NonBlank(texts);
    assert forall k :: 0 <= k < |kept| ==> Trim(Trim(kept[k])) == Trim(kept[k]) by {
      forall k | 0 <= k < |kept| { TrimIdempotent(kept[k]); }
    }
    seq(|kept|, i requires 0 <= i < |kept| => Todo(mint(i), Trim(kept[i]), false, source))
  }

  /** The list after `addMultipleTodos(texts, source)`. */
  function AddMultiple(todos: seq<Todo>, texts: seq<string>, source: Source, mint: nat -> string): (r: seq<Todo>)
    ensures |r| == |todos| + |NonBlank(texts)|
    ensures r[..|todos|] == todos
  {
    todos + NewTodos(texts, source, mint)
  }

  /** The old list is an unchanged prefix; after it comes exactly one open
      item per non-blank entry, in input order, with the trimmed text and the
      given source. */
  lemma AddMultipleAppends(todos: seq<Todo>, texts: seq<string>, source: Source, mint: nat -> string)
    ensures var r := AddMultiple(todos, texts, source, mint);
      && |r| == |todos| + |NonBlank(texts)|
      && r[..|todos|] == todos
      && forall k :: 0 <= k < |NonBlank(texts)| ==>
           r[|todos| + k] == Todo(mint(k), Trim(NonBlank(texts)[k]), false, source)
  {
  }

  /** An input made only of blank entries (or no entries) changes nothing. */
  lemma AddMultipleAllBlankIsNoop(todos: seq<Todo>, texts: seq<string>, source: Source, mint: nat -> string)
    requires forall k :: 0 <= k < |texts| ==> IsBlank(texts[k])
    ensures AddMultiple(todos, texts, source, mint) == todos
  {
    NonBlankEmptyIffAllBlank(texts);
  }

  lemma AddMultiplePreservesWellFormed(todos: seq<Todo>, texts: seq<string>, source: Source, mint: nat -> string)
    requires AllWellFormed(todos)
    ensures AllWellFormed(AddMultiple(todos, texts, source, mint))
  {
  }

  /** The ids `mint` gives to the kept entries are pairwise distinct and none
      of them is already in the list. */
  predicate FreshIds(todos: seq<Todo>, texts: seq<string>, mint: nat -> string) {
    var n := |NonBlank(texts)|;
    && (forall i, j :: 0 <= i < j < n ==> mint(i) != mint(j))
    && (forall i :: 0 <= i < n ==> !HasId(todos, mint(i)))
  }

  /** When `mint` gives distinct ids, none of them already in the list, the
      ids stay distinct: the purpose of combining time, index and a random
      suffix in each id. */
  lemma AddMultiplePreservesDistinctIds(todos: seq<Todo>, texts: seq<string>, source: Source, mint: nat -> string)
    requires DistinctIds(todos) && FreshIds(todos, texts, mint)
    ensures DistinctIds(AddMultiple(todos, texts, source, mint))
  {
  }

  /** `addMultipleTodos(["a", "", "  ", "b"])` adds exactly "a" and "b". */
  lemma AddMultipleExample(todos: seq<Todo>, mint: nat -> string)
    ensures AddMultiple(todos, ["a", "", "  ", "b"], Ai, mint)
         == todos + [Todo(mint(0), "a", false, Ai), Todo(mint(1), "b", false, Ai)]
  {
    assert TrimStart("a") == "a" && TrimEnd("a") == "a";
    assert TrimStart("b") == "b" && TrimEnd("b") == "b";
    assert TrimStart("  ") == TrimStart(" ") == TrimStart("") == "";
    assert NonBlank(["a", "", "  ", "b"]) == ["a", "b"] by {
      assert ["a", "", "  ", "b"][1..] == ["", "  ", "b"];
      assert ["", "  ", "b"][1..] == ["  ", "b"];
      assert ["  ", "b"][1..] == ["b"];
      assert ["b"][1..] == [];
    }
  }

  // ---------------------------------------------------------------------------
  // toggleTodo

  /** `prev.map(todo => todo.id === id ? { ...todo, completed: !todo.completed } : todo)`. */
  function Toggle(todos: seq<Todo>, id: string): (r: seq<Todo>)
    ensures |r| == |todos|
    ensures forall k :: 0 <= k < |r| ==> r[k].id == todos[k].id
  {
    seq(|todos|, k requires 0 <= k < |todos| =>
      if todos[k].id == id then todos[k].(completed := !todos[k].completed) else todos[k])
  }

  /** Toggling keeps the length and every field of every item except that it
      flips `completed` on exactly the items whose id matches. */
  lemma ToggleFlipsOnlyMatches(todos: seq<Todo>, id: string)
    ensures |Toggle(todos, id)| == |todos|
    ensures forall k :: 0 <= k < |todos| ==>
      var (t, u) := (todos[k], Toggle(todos, id)[k]);
      u.id == t.id && u.text == t.text && u.source == t.source
      && (u.completed != t.completed <==> t.id == id)
  {
  }

  /** Toggling an id no item has is a no-op. */
  lemma ToggleUnknownIsNoop(todos: seq<Todo>, id: string)
    requires !HasId(todos, id)
    ensures Toggle(todos, id) == todos
  {
  }

  /** Toggling the same id twice restores the list. */
  lemma ToggleInvolution(todos: seq<Todo>, id: string)
    ensures Toggle(Toggle(todos, id), id) == todos
  {
  }

  lemma TogglePreservesInvariants(todos: seq<Todo>, id: string)
    ensures AllWellFormed(todos) ==> AllWellFormed(Toggle(todos, id))
    ensures DistinctIds(todos) ==> DistinctIds(Toggle(todos, id))
  {
  }

  /** With distinct ids, toggling changes at most one item. */
  lemma ToggleChangesAtMostOne(todos: seq<Todo>, id: string)
    requires DistinctIds(todos)
    ensures forall i, j ::
              (0 <= i < |todos| && 0 <= j < |todos|
               && Toggle(todos, id)[i] != todos[i] && Toggle(todos, id)[j] != todos[j])
              ==> i == j
  {
  }

  // ---------------------------------------------------------------------------
  // deleteTodo

  /** `prev.filter(todo => todo.id !== id)`. */
  function Delete(todos: seq<Todo>, id: string): (r: seq<Todo>)
    ensures |r| <= |todos|
    ensures forall k :: 0 <= k < |r| ==> r[k].id != id
  {
    if todos == [] then []
    else if todos[0].id == id then Delete(todos[1..], id)
    else [todos[0]] + Delete(todos[1..], id)
  }

  /** What remains is exactly the items whose id differs. */
  lemma {:induction false} DeleteKeepsOthers(todos: seq<Todo>, id: string)
    ensures forall t :: t in Delete(todos, id) <==> t in todos && t.id != id
  {
    if todos != [] {
      DeleteKeepsOthers(todos[1..], id);
      assert todos == [todos[0]] + todos[1..];
    }
  }

  /** Every item whose id differs remains as often as it occurred, and no
      item with the deleted id remains. */
  lemma {:induction false} DeleteCounts(todos: seq<Todo>, id: string)
    ensures forall t :: multiset(Delete(todos, id))[t] == if t.id == id then 0 else multiset(todos)[t]
  {
    if todos != [] {
      DeleteCounts(todos[1..], id);
      assert todos == [todos[0]] + todos[1..];
    }
  }

  /** What remains keeps its relative order. */
  lemma {:induction false} DeleteIsSubsequence(todos: seq<Todo>, id: string)
    ensures IsSubsequence(Delete(todos, id), todos)
  {
    if todos != [] {
      DeleteIsSubsequence(todos[1..], id);
      var r := Delete(todos, id);
      if todos[0].id != id {
        assert r[1..] == Delete(todos[1..], id);
      }
    }
  }

  /** Deleting an id no item has is a no-op. */
  lemma {:induction false} DeleteUnknownIsNoop(todos: seq<Todo>, id: string)
    requires !HasId(todos, id)
    ensures Delete(todos, id) == todos
  {
    if todos != [] {
      assert !HasId(todos[1..], id) by {
        forall k | 0 <= k < |todos[1..]| ensures todos[1..][k].id != id {
          assert todos[1..][k] == todos[k + 1];
        }
      }
      DeleteUnknownIsNoop(todos[1..], id);
      assert todos == [todos[0]] + todos[1..];
    }
  }

  /** Deleting twice is deleting once. */
  lemma DeleteIdempotent(todos: seq<Todo>, id: string)
    ensures Delete(Delete(todos, id), id) == Delete(todos, id)
  {
  }

  lemma DeletePreservesWellFormed(todos: seq<Todo>, id: string)
    requires AllWellFormed(todos)
    ensures AllWellFormed(Delete(todos, id))
  {
  }

  lemma {:induction false} DeletePreservesDistinctIds(todos: seq<Todo>, id: string)
    requires DistinctIds(todos)
    ensures DistinctIds(Delete(todos, id))
  {
    if todos != [] {
      var tail := todos[1..];
      var rest := Delete(tail, id);
      assert DistinctIds(tail) by {
        forall i, j | 0 <= i < j < |tail| ensures tail[i].id != tail[j].id {
          assert tail[i] == todos[i + 1] && tail[j] == todos[j + 1];
        }
      }
      DeletePreservesDistinctIds(tail, id);
      if todos[0].id != id {
        DeleteKeepsOthers(tail, id);
        assert forall t :: t in rest ==> t.id != todos[0].id by {
          forall t | t in rest ensures t.id != todos[0].id {
            var m :| 0 <= m < |tail| && tail[m] == t;
            assert todos[m + 1] == t;
          }
        }
        var r := Delete(todos, id);
        assert r == [todos[0]] + rest;
        forall i, j | 0 <= i < j < |r| ensures r[i].id != r[j].id {
          assert r[j] == rest[j - 1];
          if i > 0 {
            assert r[i] == rest[i - 1];
          } else {
            assert r[j] in rest;
          }
        }
      }
    }
  }

  /** With distinct ids, deleting an id that is present removes exactly one item. */
  lemma {:induction false} DeleteRemovesOne(todos: seq<Todo>, id: string)
    requires DistinctIds(todos) && HasId(todos, id)
    ensures |Delete(todos, id)| == |todos| - 1
  {
    if todos[0].id == id {
      assert !HasId(todos[1..], id) by {
        forall k | 0 <= k < |todos[1..]| ensures todos[1..][k].id != id {
          assert todos[1..][k] == todos[k + 1];
        }
      }
      DeleteUnknownIsNoop(todos[1..], id);
    } else {
      var k :| 0 <= k < |todos| && todos[k].id == id;
      assert todos[1..][k - 1] == todos[k];
      DeleteRemovesOne(todos[1..], id);
    }
  }
}
