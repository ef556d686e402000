# Member ordering, filtering, cross-references and tree-linking helpers, in Dafny

This project models two small pieces of a documentation tool chain and proves
properties of the models.

- The template helpers of the Python handler of mkdocstrings
  (`mkdocstrings_handlers/python/rendering.py`). They order an object's members,
  alphabetically or by source line, or by an explicit list of names. They filter
  members with include/exclude name rules, where the last matching rule wins,
  or with an explicit member list and a docstring check. The remaining helpers
  format code and signatures within a line-length budget, produce
  cross-reference markup, and pick an object's template name.
- The tree-linking test helpers of griffe (`griffe/tests.py`). `vtree` chains
  objects parent to child. `htree` hangs objects under the first one.
  `module_vtree` builds the chain of modules of a dotted path.

Files:

- `wrappers.dfy`: `Option` and `Result`.
- `sequences.dfy`: order-preserving filtering and the subsequence relation.
- `pystrings.dfy`: the Python `str` behaviour the helpers rely on. This covers
  `strip`, slicing with negative bounds, `split`/`join` on one character,
  decimal rendering of integers and code-point string order.
- `rendering.dfy`: module `Rendering`, the model of `rendering.py`.
- `griffe_tests.dfy`: module `GriffeTests`, the model of `vtree`, `htree` and
  `module_vtree`.

Modelling choices:

- A name pattern is its `search` predicate. The field `Rule.search` has type
  `string -> bool`.
- The `\w` class of the multi-cross-reference pattern is a parameter
  `isWord: char -> bool`.
- markupsafe's escaping is a parameter `escape: string -> string`.
- The code formatter is a parameter `formatter: (string, int) -> string`.
  `Rendering.IdentityFormatter` is the fallback used when Black is missing.
- `members_list` of `do_filter_objects` is the datatype `MembersList`: `Unset`
  for `None`, `Flag(b)` for `True`/`False`, `Names(list)`.
- `members_list` of `do_order_members` is a sequence. The empty sequence also
  stands for `None`: the source treats both the same way.
- The dictionary given to `do_filter_objects` is a sequence of its entries in
  insertion order.
- Keyword defaults are Dafny default parameter values: `brief := true`,
  `code := true`, `returnLeaf := false`, `leafPackage := true`,
  `keepNoDocstrings := true`, `membersList := Unset`, and `filters := []`.
  `filters=None` and an empty filter list are both `[]`: the source treats
  them the same way.
- `_keep_object`, `do_order_members` (its explicit-list branch),
  `do_multi_crossref`, `vtree`, `htree` and `module_vtree` update variables or
  objects step by step, so they are methods with loops. They are proved against
  specification functions (`Keeps`, `KnownNames`/`IndexByName`, `Linked`,
  `VLinked`, `Inserted`).
- A griffe object is the class `GriffeTests.Node`. It has a constant name, a
  mutable optional file path, and a mutable name-keyed member map.
- The `ValueError` that `module_vtree` documents can never be raised.
  `path.split(".")` always yields at least one part, which `ModuleVtree`'s
  contract reflects.

## Model

| member | source | states |
|---|---|---|
| `Rendering.MissingNameSortsLast` | venv/lib/python3.8/site-packages/mkdocstrings_handlers/python/rendering.py:30-34 | an object with an empty name sorts after every object whose name starts below the last code point |
| `Rendering.MissingLinenoSortsFirst` | venv/lib/python3.8/site-packages/mkdocstrings_handlers/python/rendering.py:37-39 | an object without a line number sorts before every object with a known (non-negative) line |
| `Rendering.KeyTrichotomy` | venv/lib/python3.8/site-packages/mkdocstrings_handlers/python/rendering.py:42-45 | for both key functions, two keys are equal or exactly one is less than the other |
| `Rendering.KeyNotLessTransitive` | venv/lib/python3.8/site-packages/mkdocstrings_handlers/python/rendering.py:42-45 | for both key functions, "not greater than" is transitive |
| `Rendering.SortMembersPermutation` | venv/lib/python3.8/site-packages/mkdocstrings_handlers/python/rendering.py:132 | the sorted members are a permutation of the members |
| `Rendering.SortMembersSorted` | venv/lib/python3.8/site-packages/mkdocstrings_handlers/python/rendering.py:132 | the sorted members are non-decreasing by the selected key |
| `Rendering.SortMembersStable` | venv/lib/python3.8/site-packages/mkdocstrings_handlers/python/rendering.py:132 | members with equal keys keep their relative input order (the sort is stable) |
| `Rendering.MissingNamesLastAfterSort` | venv/lib/python3.8/site-packages/mkdocstrings_handlers/python/rendering.py:30-34 | after an alphabetical sort, every member without a name comes after every ordinary name |
| `Rendering.MissingLinenosFirstAfterSort` | venv/lib/python3.8/site-packages/mkdocstrings_handlers/python/rendering.py:37-39 | after a source sort, every member without a line number comes before every member with a known line |
| `Rendering.IndexByNameSpec` | venv/lib/python3.8/site-packages/mkdocstrings_handlers/python/rendering.py:127 | the name dictionary holds exactly the members' names, each mapped to the last member carrying that name |
| `Rendering.IndexByNameValue` | venv/lib/python3.8/site-packages/mkdocstrings_handlers/python/rendering.py:127 | the member stored under a name carries that name and is one of the members |
| `Rendering.KnownNames` | venv/lib/python3.8/site-packages/mkdocstrings_handlers/python/rendering.py:128-129 | every name kept from the list is in the list and known to the dictionary |
| `Rendering.KnownNamesSpec` | venv/lib/python3.8/site-packages/mkdocstrings_handlers/python/rendering.py:128-129 | a name is kept exactly when it is listed and known; the kept names are a subsequence of the list and keep every occurrence of a known name |
| `Rendering.CollectKnown` | venv/lib/python3.8/site-packages/mkdocstrings_handlers/python/rendering.py:126-131 | the loop collects, in list order, the dictionary's member for each listed name it knows, and nothing for the others |
| `Rendering.OrderMembers` | venv/lib/python3.8/site-packages/mkdocstrings_handlers/python/rendering.py:110-132 | with a non-empty list, the result is the known names' members in list order, unknown names skipped and `order` ignored; each is a member of that name; otherwise the result is the stable sort by key |
| `Rendering.LastMatch` | venv/lib/python3.8/site-packages/mkdocstrings_handlers/python/rendering.py:181-184 | the index found is a matching rule with no matching rule after it; none is found only when no rule matches |
| `Rendering.KeepObject` | venv/lib/python3.8/site-packages/mkdocstrings_handlers/python/rendering.py:178-191 | the loop computes `Keeps`: the last matching rule decides (`not exclude`); with no match the name is rejected exactly when the rules are non-empty and all include rules |
| `Rendering.OnlyFalseFlags` | venv/lib/python3.8/site-packages/mkdocstrings_handlers/python/rendering.py:186-190 | the set of exclude flags equals `{False}` exactly when the rule set is non-empty and include-only |
| `Rendering.LaterMatchOverrides` | venv/lib/python3.8/site-packages/mkdocstrings_handlers/python/rendering.py:181-184 | a matching rule added at the end decides the outcome, whatever the earlier rules say |
| `Rendering.EarlierMatchStands` | venv/lib/python3.8/site-packages/mkdocstrings_handlers/python/rendering.py:181-191 | a non-matching rule added at the end does not change an outcome an earlier match decided |
| `Rendering.NoRulesKeepAll` | venv/lib/python3.8/site-packages/mkdocstrings_handlers/python/rendering.py:185-190 | with an empty rule set every name is kept |
| `Rendering.FilterObjects` | venv/lib/python3.8/site-packages/mkdocstrings_handlers/python/rendering.py:194-235 | the result is always a subsequence of the dictionary's values; `False` or `[]` gives `[]`; `True` gives all values; a list keeps every occurrence of the values whose name it contains and no other value; `None` keeps every occurrence of the values `Keeps` accepts that also have docstrings (unless undocumented ones are kept), and nothing else |
| `Rendering.FormatCode` | venv/lib/python3.8/site-packages/mkdocstrings_handlers/python/rendering.py:48-62 | code whose stripped form is shorter than the limit comes back stripped and unformatted; otherwise the formatter gets the stripped code |
| `Rendering.FormatCodeIdempotent` | venv/lib/python3.8/site-packages/mkdocstrings_handlers/python/rendering.py:58-60 | on the short path, formatting the result again changes nothing |
| `Rendering.FormatSignature` | venv/lib/python3.8/site-packages/mkdocstrings_handlers/python/rendering.py:65-80 | a short name plus signature comes back stripped and concatenated; in every case the result starts with the stripped name |
| `Rendering.FormatSignatureIdentity` | venv/lib/python3.8/site-packages/mkdocstrings_handlers/python/rendering.py:71-80 | with the identity fallback formatter, the placeholder-and-slice path also returns exactly the stripped name followed by the stripped signature |
| `Rendering.Crossref` | venv/lib/python3.8/site-packages/mkdocstrings_handlers/python/rendering.py:145-147 | the hover attribute is the full path; without `brief` the text is the full path; with `brief` it is the dot-free tail of the path after its last dot (or the whole path) |
| `Rendering.DoCrossref` | venv/lib/python3.8/site-packages/mkdocstrings_handlers/python/rendering.py:135-148 | the markup is the escaped span of that link |
| `Rendering.Scan` | venv/lib/python3.8/site-packages/mkdocstrings_handlers/python/rendering.py:172 | the segments spell the text back; each is non-empty; token segments hold only `[\w.]` characters and the others none; tokens and other text alternate, so every token is a maximal run |
| `Rendering.PathVariablesDiffer` | venv/lib/python3.8/site-packages/mkdocstrings_handlers/python/rendering.py:166-169 | distinct group numbers give distinct placeholder names, so no path overwrites another in the variables dictionary |
| `Rendering.MultiCrossref` | venv/lib/python3.8/site-packages/mkdocstrings_handlers/python/rendering.py:151-175 | the placeholder loop produces each token as a span linking to itself (escaped), the other text unchanged, wrapped in `<code>` when asked |
| `Rendering.GetTemplate` | venv/lib/python3.8/site-packages/mkdocstrings_handlers/python/rendering.py:253-263 | a non-empty override in the extra data wins; otherwise the name is the kind's value followed by `.html` |
| `PyStrings.LStrip` | venv/lib/python3.8/site-packages/mkdocstrings_handlers/python/rendering.py:58 | the result is a suffix of the input, cut after leading whitespace only, and does not start with whitespace |
| `PyStrings.RStrip` | venv/lib/python3.8/site-packages/mkdocstrings_handlers/python/rendering.py:58 | the result is a prefix of the input, cut before trailing whitespace only, and does not end with whitespace |
| `PyStrings.StripSlice` | venv/lib/python3.8/site-packages/mkdocstrings_handlers/python/rendering.py:66-67 | stripping removes a run of whitespace from each end and keeps the contiguous middle |
| `PyStrings.StripIdempotent` | venv/lib/python3.8/site-packages/mkdocstrings_handlers/python/rendering.py:58 | stripping twice is stripping once |
| `PyStrings.JoinSplit` | venv/lib/python3.8/site-packages/griffe/tests.py:229 | joining the parts of a split with the separator gives back the string |
| `PyStrings.SplitJoin` | venv/lib/python3.8/site-packages/griffe/tests.py:229 | splitting the join of separator-free parts gives back the parts |
| `PyStrings.SplitLast` | venv/lib/python3.8/site-packages/mkdocstrings_handlers/python/rendering.py:147 | the last part of a split is the suffix after the last separator, or the whole string |
| `PyStrings.ParseDecimalOfDecimal` | venv/lib/python3.8/site-packages/mkdocstrings_handlers/python/rendering.py:168 | the decimal rendering of a number parses back to that number |
| `PyStrings.StrLessTransitive` | venv/lib/python3.8/site-packages/mkdocstrings_handlers/python/rendering.py:34 | code-point string order is transitive |
| `PyStrings.StrLessTotal` | venv/lib/python3.8/site-packages/mkdocstrings_handlers/python/rendering.py:34 | of two distinct strings one is less than the other |
| `Sequences.Filter` | venv/lib/python3.8/site-packages/mkdocstrings_handlers/python/rendering.py:228-235 | a comprehension with a condition yields a subsequence of its input that holds exactly the elements satisfying the condition |
| `Sequences.FilterMultiplicity` | venv/lib/python3.8/site-packages/mkdocstrings_handlers/python/rendering.py:228-235 | the comprehension keeps every occurrence of a selected element and none of the others, so with the subsequence property its result is determined |
| `GriffeTests.Node.SetMember` | venv/lib/python3.8/site-packages/griffe/tests.py:190 | the object gains `value` under `key`; nothing else about it changes |
| `GriffeTests.Vtree` | venv/lib/python3.8/site-packages/griffe/tests.py:172-192 | no objects raise `ValueError`; otherwise each object becomes a member of the one before it under its own name, and the last object (with `return_leaf`) or the first is returned, so a single object is returned either way |
| `GriffeTests.LastLinkHolds` | venv/lib/python3.8/site-packages/griffe/tests.py:189-191 | the last object always ends up a member of the one before it, even when objects repeat |
| `GriffeTests.VLinkedOutside` | venv/lib/python3.8/site-packages/griffe/tests.py:189-191 | objects outside the chain keep their members |
| `GriffeTests.VLinkedDistinct` | venv/lib/python3.8/site-packages/griffe/tests.py:187-192 | in a chain of distinct objects, each but the last gains exactly its successor under the successor's name, and the last gains nothing |
| `GriffeTests.Htree` | venv/lib/python3.8/site-packages/griffe/tests.py:195-212 | no objects raise `ValueError`; otherwise every object from the second on is inserted into the first under its own name, and the first is returned |
| `GriffeTests.InsertedDistinct` | venv/lib/python3.8/site-packages/griffe/tests.py:210-211 | with distinct names, every later object is a member of the first under its name, and the member names are the old ones plus theirs |
| `GriffeTests.WithStemAgreesWithName` | venv/lib/python3.8/site-packages/griffe/tests.py:231-236 | on the last module's `__init__.py` path, the `with_stem` and `with_name` branches give the same path, the parts before the last followed by `<last>.py` |
| `GriffeTests.NewModules` | venv/lib/python3.8/site-packages/griffe/tests.py:230 | one fresh memberless module per part, module `i` named `parts[i]` with path `parts[:i] + ["__init__.py"]` |
| `GriffeTests.BuildModules` | venv/lib/python3.8/site-packages/griffe/tests.py:229-236 | one fresh memberless module per part, named after it, with file `parts[:i] + ["__init__.py"]`, the last one's renamed to `<name>.py` without `leaf_package` |
| `GriffeTests.ChainLinks` | venv/lib/python3.8/site-packages/griffe/tests.py:237 | linking distinct memberless modules leaves each holding exactly its successor under its name, and the last holding nothing |
| `GriffeTests.ModuleVtree` | venv/lib/python3.8/site-packages/griffe/tests.py:215-237 | one module per dot-separated part, never none, in order; module `i` is named `parts[i]` with path `parts[:i] + ["__init__.py"]`, except that without `leaf_package` the last one's path is its name with `.py`; each module holds exactly its successor; top or leaf is returned |

## Left out

- `temporary_pyfile`, `temporary_pypackage`, `temporary_visited_package`, `temporary_visited_module`, `temporary_inspected_module` and the pytest fixture (`griffe/tests.py:32-169`): temporary-directory I/O, the external loader, visitor and inspector, and changes to the interpreter's module registry.
- `_get_black_formatter` (`rendering.py:238-250`): the process-wide cache, the optional import of Black and the log message. The formatter is a parameter, and `IdentityFormatter` stands for the fallback.
- `do_format_signature` (`rendering.py:83-107`): it needs the Jinja environment, template rendering and the `highlight` filter.
- Regular expressions are abstract predicates (`Rule.search`, `isWord`), and markupsafe's escaping is the abstract `escape`.
- MultiCrossref: `Markup.format` brace parsing is not modelled. The template is a sequence of literal pieces and placeholders. Literal `{` or `}` in the text outside tokens is passed through unchanged, where the source's `format` would raise or misread it.
- The recursive `has_docstrings` of griffe objects is a boolean field of `DocObject`.
- GriffeTests.Node.SetMember: griffe's item assignment (setting the member's parent, dotted keys) is a plain map insertion.
- GriffeTests.ModuleVtree: file paths are the segments given to `Path`. pathlib's normalisation is not modelled: it drops empty segments, splits segments at `/`, and `with_name` rejects a name that contains a separator.
- Object names are strings. A `None` name is not modelled; the empty string is, and it takes the sentinel key like a missing name does.
- GetTemplate: a template value in the extra data that is not a string, such as `None`, is not modelled. Only strings are, with `""` as the falsy one.
- `Rendering.Kind` lists the four object kinds (module, class, function, attribute) and nothing else.
