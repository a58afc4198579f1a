# Todo app core in Dafny

A model of the two pieces of logic in the todo app, with proofs about them.

- **The todo store** (`todo-app/context/TodoContext.tsx`). The provider holds a list of todo records: id, text, completed flag, and source (manual or ai). It offers four operations:
  - `addTodo` rejects a blank text, or trims it and appends one record.
  - `addMultipleTodos` drops blank entries, trims the rest and appends them in order.
  - `toggleTodo` flips `completed` on the items whose id matches.
  - `deleteTodo` keeps only the items whose id differs.

  Every operation replaces the list with a new one. `TodoContext.TodoStore` is a class whose `todos: seq<Todo>` field each method reassigns. Each method's postcondition ties the new list to a function of the old one in module `TodoList`. The lemmas of that module state what those functions promise.
- **The AI-reply extractor** (`generateTodos` in `todo-app/services/groqService.ts`, the part after the response arrives):
  - An absent content field defaults to `"[]"`.
  - The text matched by `/\[[\s\S]*\]/` is cut out.
  - That span is parsed as JSON.
  - The value is accepted only if it is an array made entirely of strings.

  `GroqService.IsRegexMatch` is a reference definition of the match the regular expression reports: leftmost start, then greedy. `GroqService.MatchBounds` computes the span by index arithmetic (first `[`, last `]`) and is proved to give exactly that match. `JSON.parse` is an abstract parameter `parse: string -> Option<Json>`, where `None` means it throws.

Module `Text` models JavaScript's `String.prototype.trim` over ECMAScript's whitespace and line-terminator characters. Both add operations use it.

Three behaviours of the code worth noting:
- **Empty content is not defaulted.** `??` replaces only `null`/`undefined`, so a present empty string `""` has no `[` and gives "Failed to parse AI response", not an empty list (`GroqService.EmptyContentIsParseError`).
- **Toggle flips every match.** Toggle flips `completed` on every item whose id matches, not only the first one found. With distinct ids this is at most one item (`TodoList.ToggleChangesAtMostOne`).
- **JSON syntax errors stay distinct.** A span that `JSON.parse` rejects propagates the parser's own error (`JsonError`). It is not the fixed "Failed to parse AI response" error.

## Model

| member | source | states |
|---|---|---|
| Text.TrimStart | todo-app/context/TodoContext.tsx:18 | what leading-whitespace removal leaves is empty or starts with a non-whitespace character, and is no longer than the input |
| Text.TrimStartIsSuffix | todo-app/context/TodoContext.tsx:18 | leading-whitespace removal takes off a prefix made only of whitespace and keeps the rest |
| Text.TrimEnd | todo-app/context/TodoContext.tsx:18 | what trailing-whitespace removal leaves is empty or ends with a non-whitespace character |
| Text.TrimEndIsPrefix | todo-app/context/TodoContext.tsx:18 | trailing-whitespace removal takes off a suffix made only of whitespace and keeps the rest |
| Text.Trim | todo-app/context/TodoContext.tsx:21 | `trim()` returns a string with no whitespace at either end |
| Text.TrimIsInfix | todo-app/context/TodoContext.tsx:21 | `trim()` returns an infix of its input and removes only whitespace around it |
| Text.BlankIffAllWhitespace | todo-app/context/TodoContext.tsx:18 | `text.trim() === ''` holds exactly when every character is whitespace |
| Text.TrimmedIsFixpoint | todo-app/context/TodoContext.tsx:21 | trimming a string that has no whitespace at its ends returns it unchanged |
| Text.TrimIdempotent | todo-app/context/TodoContext.tsx:21 | trimming twice equals trimming once, so stored texts are already trimmed |
| TodoList.Add | todo-app/context/TodoContext.tsx:17-25 | adding grows the list by one exactly when the text is not blank, keeps the old list as a prefix, and keeps every stored text trimmed and non-empty |
| TodoList.AddAppendsOne | todo-app/context/TodoContext.tsx:17-25 | a blank text leaves the list unchanged, and only a blank text does. Otherwise the list grows by one: the old list is an unchanged prefix and the new last item has the fresh id, the trimmed text, `completed == false` and the given source |
| TodoList.AddPreservesWellFormed | todo-app/context/TodoContext.tsx:18-21 | adding keeps every stored text trimmed and non-empty |
| TodoList.AddPreservesDistinctIds | todo-app/context/TodoContext.tsx:20 | adding with an id not already in the list keeps ids pairwise distinct |
| TodoList.NonBlank | todo-app/context/TodoContext.tsx:30 | the filter keeps only non-blank entries and never grows the input |
| TodoList.NonBlankEmptyIffAllBlank | todo-app/context/TodoContext.tsx:30 | the filter keeps nothing exactly when every entry is blank |
| TodoList.NonBlankCounts | todo-app/context/TodoContext.tsx:30 | each non-blank entry is kept as often as it occurs, and blank entries never |
| TodoList.NonBlankIsSubsequence | todo-app/context/TodoContext.tsx:30 | the kept entries are in input order |
| TodoList.NewTodos | todo-app/context/TodoContext.tsx:29-36 | one new item per kept entry. The item for the entry at index `k` has id `mint(k)`, a trimmed non-empty text, `completed == false` and the given source |
| TodoList.AddMultiple | todo-app/context/TodoContext.tsx:37 | the new items come after the old list, which stays an unchanged prefix, and the list grows by the number of kept entries |
| TodoList.AddMultipleAppends | todo-app/context/TodoContext.tsx:28-37 | the old list is an unchanged prefix, followed by exactly one item per kept entry, in order. Each new item has the id minted for its index, the trimmed text, `completed == false` and the given source |
| TodoList.AddMultipleAllBlankIsNoop | todo-app/context/TodoContext.tsx:29-37 | an input of only blank entries (or none) leaves the list unchanged |
| TodoList.AddMultiplePreservesWellFormed | todo-app/context/TodoContext.tsx:30-33 | bulk adding keeps every stored text trimmed and non-empty |
| TodoList.AddMultiplePreservesDistinctIds | todo-app/context/TodoContext.tsx:32 | when the ids minted for the kept entries (the only ones that receive ids) are pairwise distinct and new to the list, ids stay pairwise distinct |
| TodoList.AddMultipleExample | todo-app/context/TodoContext.tsx:28-37 | `addMultipleTodos(["a", "", "  ", "b"])` appends exactly "a" then "b", as open ai items |
| TodoList.Toggle | todo-app/context/TodoContext.tsx:41-45 | toggling keeps the length of the list and the id at every position |
| TodoList.ToggleFlipsOnlyMatches | todo-app/context/TodoContext.tsx:40-46 | toggling keeps the length, id, text and source of every item, and changes `completed` exactly on the items whose id matches |
| TodoList.ToggleUnknownIsNoop | todo-app/context/TodoContext.tsx:42-43 | toggling an id that no item has leaves the list unchanged |
| TodoList.ToggleInvolution | todo-app/context/TodoContext.tsx:42-43 | toggling the same id twice restores the original list |
| TodoList.TogglePreservesInvariants | todo-app/context/TodoContext.tsx:43 | toggling keeps texts trimmed and non-empty, and keeps ids distinct |
| TodoList.ToggleChangesAtMostOne | todo-app/context/TodoContext.tsx:42-43 | with distinct ids, at most one item changes |
| TodoList.Delete | todo-app/context/TodoContext.tsx:49 | deleting never grows the list, and no remaining item has the deleted id |
| TodoList.DeleteKeepsOthers | todo-app/context/TodoContext.tsx:49 | an item remains exactly when it was in the list and its id differs from the deleted one |
| TodoList.DeleteCounts | todo-app/context/TodoContext.tsx:49 | every item whose id differs remains exactly as often as it occurred, repeated records included, and no item with the deleted id remains |
| TodoList.DeleteIsSubsequence | todo-app/context/TodoContext.tsx:49 | the remaining items keep their original relative order |
| TodoList.DeleteUnknownIsNoop | todo-app/context/TodoContext.tsx:49 | deleting an id that no item has leaves the list unchanged |
| TodoList.DeleteIdempotent | todo-app/context/TodoContext.tsx:49 | deleting twice equals deleting once |
| TodoList.DeletePreservesWellFormed | todo-app/context/TodoContext.tsx:49 | deleting keeps every stored text trimmed and non-empty |
| TodoList.DeletePreservesDistinctIds | todo-app/context/TodoContext.tsx:49 | deleting keeps ids pairwise distinct |
| TodoList.DeleteRemovesOne | todo-app/context/TodoContext.tsx:48-50 | with distinct ids, deleting an id that is present removes exactly one item |
| TodoContext.TodoStore.constructor | todo-app/context/TodoContext.tsx:15 | the store starts with an empty list |
| TodoContext.TodoStore.AddTodo | todo-app/context/TodoContext.tsx:17-26 | the new list is the old one after adding (blank text is a no-op). The store invariant is kept, and ids stay distinct when the given id is fresh |
| TodoContext.TodoStore.AddMultipleTodos | todo-app/context/TodoContext.tsx:28-38 | the new list is the old one followed by the trimmed non-blank entries. The store invariant is kept, and ids stay distinct when the ids minted for the kept entries are fresh and distinct |
| TodoContext.TodoStore.ToggleTodo | todo-app/context/TodoContext.tsx:40-46 | the new list is the old one with the matching items' flags flipped. The store invariant and distinct ids are kept |
| TodoContext.TodoStore.DeleteTodo | todo-app/context/TodoContext.tsx:48-50 | the new list is the old one without the matching items. The store invariant and distinct ids are kept |
| GroqService.ReplyContent | todo-app/services/groqService.ts:27 | the reply text is the first choice's message content when all three are present, and `"[]"` otherwise |
| GroqService.IndexOf | todo-app/services/groqService.ts:30 | the first index holding the character, or none when it does not occur |
| GroqService.LastIndexOf | todo-app/services/groqService.ts:30 | the last index holding the character, or none when it does not occur |
| GroqService.MatchBounds | todo-app/services/groqService.ts:30-33 | there is no match exactly when no `]` follows a `[`. Otherwise the first `[` and the last `]` are the leftmost, greedy match the regular expression reports |
| GroqService.ExtractArray | todo-app/services/groqService.ts:30 | the extracted text is absent exactly when the pattern cannot match, and otherwise it is the span of the regular expression's match |
| GroqService.RegexMatchUnique | todo-app/services/groqService.ts:30 | the regular expression reports at most one match |
| GroqService.RegexMatchIsFirstOpenToLastClose | todo-app/services/groqService.ts:30 | the match starts at the first `[`, ends at the last `]`, and so begins with `[` and ends with `]` |
| GroqService.SwallowsTextBetweenArrays | todo-app/services/groqService.ts:30 | two arrays with prose between them are extracted as one span that includes the prose |
| GroqService.StringArray | todo-app/services/groqService.ts:40 | the JSON array holding the given strings has exactly those strings as its elements, in order |
| GroqService.Strings | todo-app/services/groqService.ts:36 | the strings are produced exactly when every element is a string, and then they are exactly those elements in order |
| GroqService.AsStringArray | todo-app/services/groqService.ts:36-37 | validation accepts exactly arrays whose every element is a string, and then gives back that array's strings |
| GroqService.AsStringArrayRoundTrip | todo-app/services/groqService.ts:36-40 | validating an array of strings returns the same strings: no trimming, filtering or deduplication |
| GroqService.ProcessContent | todo-app/services/groqService.ts:30-40 | it gives the parse error (with its message) exactly when the pattern cannot match. Otherwise, on the matched span: a parser failure gives `JsonError`, a non-array or an array with a non-string gives the validation error (with its message), and anything else gives exactly the array's strings, all or nothing |
| GroqService.GenerateTodos | todo-app/services/groqService.ts:27-40 | present content is processed as it is. Absent content is processed as `"[]"`, so it never gives the parse error |
| GroqService.AbsentContentGivesEmptyList | todo-app/services/groqService.ts:27 | with a missing choice, message or content, the result is the empty list with no error |
| GroqService.EmptyContentIsParseError | todo-app/services/groqService.ts:27-33 | a completion whose first choice carries a present empty content is not defaulted, and the whole call gives the parse error |
| GroqService.ProseIsParseError | todo-app/services/groqService.ts:30-33 | a reply with no brackets gives the parse error |
| GroqService.CommentedArrayIsAccepted | todo-app/services/groqService.ts:30-40 | `Sure! ["Buy milk","Walk dog"]` gives exactly `["Buy milk", "Walk dog"]` |
| GroqService.NumberArrayIsValidationError | todo-app/services/groqService.ts:35-38 | `[1, 2, 3]` gives the validation error |

## Left out

- The chat-completion request: the Groq client, the API key, the system and user messages, the model name, temperature and token budget (todo-app/services/groqService.ts:1-25). This is a network call into a foreign library; only its response enters the model, as `Completion`.
- Network and transport failures of that request: they happen before the modelled part and are not caught by it.
- The internals of `JSON.parse`: the parser is the parameter `parse`. The examples state what they assume of it in their `requires`. JSON numbers are kept as reals, and JavaScript's double-precision numbers are not modelled.
- Id generation from `Date.now()` and `Math.random()` (todo-app/context/TodoContext.tsx:20, 32). These are clock and randomness. `AddTodo` receives the fresh id as a parameter. `AddMultipleTodos` receives `mint`, which gives the id for each index of the filtered list.
- TodoContext.TodoStore.AddTodo: id uniqueness is not part of the store invariant. The random suffix only makes collisions unlikely, so distinct ids are promised only when the supplied ids are fresh.
- React wiring: `createContext`, the provider's rendering, and `useTodos` throwing outside a provider (todo-app/context/TodoContext.tsx:12, 52-65).
- `setTodos` with an updater function applies each change to the latest state. The model applies each operation immediately to the current list, so batching of React state updates is not modelled.
- The screens and navigation (todo-app/screens/AiTodoScreen.tsx, todo-app/screens/ManualTodoScreen.tsx, todo-app/App.tsx). This is UI. The manual screen's blank-input guard (todo-app/screens/ManualTodoScreen.tsx:17) repeats `addTodo`'s own check. The AI screen's guard (todo-app/screens/AiTodoScreen.tsx:22) stops a blank prompt before `generateTodos` is called, and the prompt never reaches the modelled part.
- JavaScript strings are sequences of UTF-16 code units, but the model's `string` is a sequence of Unicode scalar values, so a reply holding a lone surrogate cannot be represented. This changes nothing for `trim` or the bracket search, because no whitespace or bracket character is a surrogate.
- `async`/`await` and the suspension point around the request, which is a concurrency concern.
