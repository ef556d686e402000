/**
 * A model of the template helpers of the Python handler of mkdocstrings:
 * member ordering and filtering, signature formatting, cross-reference markup
 * and template selection.
 *
 * The regular expressions the source applies are parameters: a filter rule
 * carries its pattern's `search` as a predicate on names, and the `\w` class
 * used by the multi-cross-reference filter is a predicate on characters.
 * markupsafe's escaping is a parameter `escape`, and the code formatter (Black,
 * or the identity when Black is missing) is a parameter `formatter`.
 */
module Rendering {
  import opened Wrappers
  import opened Sequences
  import opened PyStrings

  /** The possible members ordering. */
  datatype Order = Alphabetical | Source

  /** The kind tag of a documented object. */
  datatype Kind = Module | Class | Function | Attribute

  /** The string value of a kind. */
  function KindValue(k: Kind): string {
    match k
    case Module => "module"
    case Class => "class"
    case Function => "function"
    case Attribute => "attribute"
  }

  /**
   * A documented object as the helpers see it: its name, its source line if
   * known, whether it has docstrings, its kind, and its free-form `extra` data
   * (namespace -> key -> value).
   */
  datatype DocObject = DocObject(
    name: string,
    lineno: Option<int>,
    hasDocstrings: bool,
    kind: Kind,
    extra: map<string, map<string, string>>)

  // ---------------------------------------------------------------- ordering

  /** The alphabetical sort key: the name, or the last code point when the name is empty. */
  function AlphabeticalKey(item: DocObject): string {
    if item.name != "" then item.name else [MaxUnicode]
  }

  /** The source sort key: the line number, or -1 when it is unknown. */
  function SourceKey(item: DocObject): int {
    match item.lineno
    case Some(n) => n
    case None => -1
  }

  /** `key(a) < key(b)` for the key function that `order` selects. */
  predicate KeyLess(order: Order, a: DocObject, b: DocObject) {
    match order
    case Alphabetical => StrLess(AlphabeticalKey(a), AlphabeticalKey(b))
    case Source => SourceKey(a) < SourceKey(b)
  }

  /** `key(a) == key(b)` for the key function that `order` selects. */
  predicate SameKey(order: Order, a: DocObject, b: DocObject) {
    match order
    case Alphabetical => AlphabeticalKey(a) == AlphabeticalKey(b)
    case Source => SourceKey(a) == SourceKey(b)
  }

  /** Two objects compare unequal by key exactly when one key is less than the other. */
  lemma KeyTrichotomy(order: Order, a: DocObject, b: DocObject)
    ensures KeyLess(order, a, b) ==> !SameKey(order, a, b) && !KeyLess(order, b, a)
    ensures !SameKey(order, a, b) ==> KeyLess(order, a, b) || KeyLess(order, b, a)
  {
    if order == Alphabetical {
      var x, y := AlphabeticalKey(a), AlphabeticalKey(b);
      if x == y {
        StrLessIrreflexive(x);
      } else {
        StrLessTotal(x, y);
        if StrLess(x, y) {
          StrLessAsymmetric(x, y);
        }
      }
    }
  }

  /** "Not greater than" by key is transitive. */
  lemma KeyNotLessTransitive(order: Order, a: DocObject, b: DocObject, c: DocObject)
    requires !KeyLess(order, b, a) && !KeyLess(order, c, b)
    ensures !KeyLess(order, c, a)
  {
    if order == Alphabetical {
      var x, y, z := AlphabeticalKey(a), AlphabeticalKey(b), AlphabeticalKey(c);
      if x != y && y != z {
        StrLessTotal(x, y);
        StrLessTotal(y, z);
        StrLessTransitive(x, y, z);
        StrLessAsymmetric(x, z);
      }
    }
  }

  /** A missing or empty name sorts after every name that starts below the last code point. */
  lemma MissingNameSortsLast(a: DocObject, b: DocObject)
    requires a.name == "" && b.name != "" && b.name[0] != MaxUnicode
    ensures KeyLess(Alphabetical, b, a)
  {
    StrLessMaxUnicode(b.name);
  }

  /** A missing line number sorts before every known (non-negative) line number. */
  lemma MissingLinenoSortsFirst(a: DocObject, b: DocObject)
    requires a.lineno.None? && b.lineno.Some? && b.lineno.value >= 0
    ensures KeyLess(Source, a, b)
  {
  }

  /** Puts `x` before the first element of `s` whose key is not less than its own. */
  function Insert(order: Order, x: DocObject, s: seq<DocObject>): seq<DocObject> {
    if s == [] then [x]
    else if KeyLess(order, s[0], x) then [s[0]] + Insert(order, x, s[1..])
    else [x] + s
  }

  /** Python's `sorted` with the key function that `order` selects: a stable sort by key. */
  function SortMembers(order: Order, members: seq<DocObject>): seq<DocObject> {
    if members == [] then [] else Insert(order, members[0], SortMembers(order, members[1..]))
  }

  /** Non-decreasing by key. */
  predicate Sorted(order: Order, s: seq<DocObject>) {
    forall i, j :: 0 <= i < j < |s| ==> !KeyLess(order, s[j], s[i])
  }

  /** The elements of `s` whose key equals that of `y`, in the order of `s`. */
  function Ties(order: Order, s: seq<DocObject>, y: DocObject): seq<DocObject> {
    Filter(e => SameKey(order, e, y), s)
  }

  lemma {:induction false} InsertPermutation(order: Order, x: DocObject, s: seq<DocObject>)
    ensures multiset(Insert(order, x, s)) == multiset(s) + multiset{x}
  {
    if s != [] && KeyLess(order, s[0], x) {
      InsertPermutation(order, x, s[1..]);
      assert s == [s[0]] + s[1..];
    }
  }

  /** Every element of `s` has a key not less than that of `y`. */
  predicate AllAtLeast(order: Order, s: seq<DocObject>, y: DocObject) {
    forall k :: 0 <= k < |s| ==> !KeyLess(order, s[k], y)
  }

  lemma {:induction false} InsertAtLeast(order: Order, x: DocObject, s: seq<DocObject>, y: DocObject)
    requires AllAtLeast(order, s, y) && !KeyLess(order, x, y)
    ensures AllAtLeast(order, Insert(order, x, s), y)
  {
    if s != [] && KeyLess(order, s[0], x) {
      InsertAtLeast(order, x, s[1..], y);
    }
  }

  lemma SortedCons(order: Order, y: DocObject, t: seq<DocObject>)
    requires Sorted(order, t) && AllAtLeast(order, t, y)
    ensures Sorted(order, [y] + t)
  {
    var r := [y] + t;
    forall i, j | 0 <= i < j < |r| ensures !KeyLess(order, r[j], r[i]) {
      if i == 0 {
        assert r[j] == t[j - 1];
      } else {
        assert r[i] == t[i - 1] && r[j] == t[j - 1];
      }
    }
  }

  lemma {:induction false} InsertSorted(order: Order, x: DocObject, s: seq<DocObject>)
    requires Sorted(order, s)
    ensures Sorted(order, Insert(order, x, s))
  {
    if s == [] {
    } else if KeyLess(order, s[0], x) {
      var t := Insert(order, x, s[1..]);
      assert Sorted(order, s[1..]) by {
        forall i, j | 0 <= i < j < |s| - 1 ensures !KeyLess(order, s[1..][j], s[1..][i]) {
          assert s[1..][j] == s[j + 1] && s[1..][i] == s[i + 1];
        }
      }
      InsertSorted(order, x, s[1..]);
      assert AllAtLeast(order, s[1..], s[0]) by {
        forall k | 0 <= k < |s| - 1 ensures !KeyLess(order, s[1..][k], s[0]) {
          assert s[1..][k] == s[k + 1];
        }
      }
      KeyTrichotomy(order, s[0], x);
      InsertAtLeast(order, x, s[1..], s[0]);
      SortedCons(order, s[0], t);
    } else {
      forall k | 0 <= k < |s| ensures !KeyLess(order, s[k], x) {
        if k > 0 {
          KeyNotLessTransitive(order, x, s[0], s[k]);
        }
      }
      SortedCons(order, x, s);
    }
  }

  lemma {:induction false} InsertTies(order: Order, x: DocObject, s: seq<DocObject>, y: DocObject)
    ensures Ties(order, Insert(order, x, s), y)
      == (if SameKey(order, x, y) then [x] else []) + Ties(order, s, y)
  {
    if s != [] {
      if KeyLess(order, s[0], x) {
        InsertTies(order, x, s[1..], y);
        assert ([s[0]] + Insert(order, x, s[1..]))[1..] == Insert(order, x, s[1..]);
        if SameKey(order, x, y) {
          KeyTrichotomy(order, s[0], x);
          SameKeyTransfer(order, s[0], x, y);
        }
      } else {
        assert ([x] + s)[1..] == s;
      }
    }
  }

  lemma SameKeyTransfer(order: Order, a: DocObject, x: DocObject, y: DocObject)
    requires !SameKey(order, a, x) && SameKey(order, x, y)
    ensures !SameKey(order, a, y)
  {
  }

  /** The sort returns a permutation of the members. */
  lemma {:induction false} SortMembersPermutation(order: Order, members: seq<DocObject>)
    ensures multiset(SortMembers(order, members)) == multiset(members)
  {
    if members != [] {
      SortMembersPermutation(order, members[1..]);
      InsertPermutation(order, members[0], SortMembers(order, members[1..]));
      assert members == [members[0]] + members[1..];
    }
  }

  /** The sort returns the members in non-decreasing key order. */
  lemma {:induction false} SortMembersSorted(order: Order, members: seq<DocObject>)
    ensures Sorted(order, SortMembers(order, members))
  {
    if members != [] {
      SortMembersSorted(order, members[1..]);
      InsertSorted(order, members[0], SortMembers(order, members[1..]));
    }
  }

  /** The sort is stable: members with equal keys keep their relative order. */
  lemma {:induction false} SortMembersStable(order: Order, members: seq<DocObject>, y: DocObject)
    ensures Ties(order, SortMembers(order, members), y) == Ties(order, members, y)
  {
    if members != [] {
      SortMembersStable(order, members[1..], y);
      InsertTies(order, members[0], SortMembers(order, members[1..]), y);
    }
  }

  /** After an alphabetical sort, members without a name come after every ordinary name. */
  lemma MissingNamesLastAfterSort(members: seq<DocObject>, i: int, j: int)
    requires var r := SortMembers(Alphabetical, members);
      0 <= i < |r| && 0 <= j < |r| && r[i].name == "" && r[j].name != "" && r[j].name[0] != MaxUnicode
    ensures j < i
  {
    var r := SortMembers(Alphabetical, members);
    SortMembersSorted(Alphabetical, members);
    MissingNameSortsLast(r[i], r[j]);
  }

  /** After a source sort, members without a line number come before every known line. */
  lemma MissingLinenosFirstAfterSort(members: seq<DocObject>, i: int, j: int)
    requires var r := SortMembers(Source, members);
      0 <= i < |r| && 0 <= j < |r| && r[i].lineno.None? && r[j].lineno.Some? && r[j].lineno.value >= 0
    ensures i < j
  {
    var r := SortMembers(Source, members);
    SortMembersSorted(Source, members);
    MissingLinenoSortsFirst(r[i], r[j]);
  }

  /** The members indexed by name, built in order, so that a later member replaces an earlier one of the same name. */
  function IndexByName(members: seq<DocObject>): map<string, DocObject> {
    if members == [] then map[]
    else
      var last := members[|members| - 1];
      IndexByName(members[..|members| - 1])[last.name := last]
  }

  /** The dictionary holds every member's name, each mapped to the last member of that name. */
  lemma {:induction false} IndexByNameSpec(members: seq<DocObject>)
    ensures forall n :: n in IndexByName(members) <==> exists i :: 0 <= i < |members| && members[i].name == n
    ensures forall n :: n in IndexByName(members) ==>
      exists i :: 0 <= i < |members| && members[i] == IndexByName(members)[n] && members[i].name == n
        && forall j :: i < j < |members| ==> members[j].name != n
  {
    if members != [] {
      var init := members[..|members| - 1];
      IndexByNameSpec(init);
      assert forall i :: 0 <= i < |init| ==> init[i] == members[i];
    }
  }

  /** The member the dictionary holds under a name carries that name and is one of the members. */
  lemma IndexByNameValue(members: seq<DocObject>, n: string)
    requires n in IndexByName(members)
    ensures IndexByName(members)[n].name == n && IndexByName(members)[n] in members
  {
    IndexByNameSpec(members);
    var i :| 0 <= i < |members| && members[i] == IndexByName(members)[n] && members[i].name == n;
  }

  /** The names of `names` that `d` knows, in the order of `names`. */
  function KnownNames(names: seq<string>, d: map<string, DocObject>): (known: seq<string>)
    ensures forall k :: 0 <= k < |known| ==> known[k] in d && known[k] in names
  {
    var known := Filter(n => n in d, names);
    assert forall k :: 0 <= k < |known| ==> known[k] in known;
    known
  }

  /** The kept names are the listed names the dictionary knows, every occurrence of them, in list order. */
  lemma KnownNamesSpec(names: seq<string>, d: map<string, DocObject>)
    ensures forall n :: n in KnownNames(names, d) <==> n in names && n in d
    ensures IsSubsequence(KnownNames(names, d), names)
    ensures forall n :: multiset(KnownNames(names, d))[n] == if n in d then multiset(names)[n] else 0
  {
    FilterMultiplicity(n => n in d, names);
  }

  lemma KnownNamesSnoc(names: seq<string>, name: string, d: map<string, DocObject>)
    ensures KnownNames(names + [name], d) == KnownNames(names, d) + (if name in d then [name] else [])
  {
    FilterSnoc(n => n in d, names, name);
  }

  /** The loop of `do_order_members` over the member list: the members of the names `d` knows, in list order. */
  method CollectKnown(names: seq<string>, d: map<string, DocObject>) returns (picked: seq<DocObject>)
    ensures var known := KnownNames(names, d);
      |picked| == |known| && forall k :: 0 <= k < |known| ==> picked[k] == d[known[k]]
  {
    picked := [];
    var i := 0;
    ghost var known: seq<string> := [];
    while i < |names|
      invariant 0 <= i <= |names|
      invariant known == KnownNames(names[..i], d)
      invariant |picked| == |known|
      invariant forall k :: 0 <= k < |picked| ==> known[k] in d && picked[k] == d[known[k]]
    {
      var name := names[i];
      assert names[..i + 1] == names[..i] + [name];
      KnownNamesSnoc(names[..i], name, d);
      if name in d {
        picked := picked + [d[name]];
        known := known + [name];
      }
      i := i + 1;
    }
    assert names[..i] == names;
  }

  /**
   * `do_order_members`: with a non-empty member list, the members named in it
   * in the list's order (unknown names skipped, `order` ignored); otherwise the
   * members sorted by the key `order` selects.
   */
  method OrderMembers(members: seq<DocObject>, order: Order, membersList: seq<string>)
    returns (sortedMembers: seq<DocObject>)
    ensures |membersList| == 0 ==> sortedMembers == SortMembers(order, members)
    ensures |membersList| > 0 ==>
      var known := KnownNames(membersList, IndexByName(members));
      |sortedMembers| == |known|
      && forall k :: 0 <= k < |known| ==>
        sortedMembers[k] == IndexByName(members)[known[k]]
        && sortedMembers[k].name == known[k] && sortedMembers[k] in members
  {
    if |membersList| > 0 {
      var membersDict := IndexByName(members);
      sortedMembers := CollectKnown(membersList, membersDict);
      var known := KnownNames(membersList, membersDict);
      forall k | 0 <= k < |known|
        ensures sortedMembers[k].name == known[k] && sortedMembers[k] in members
      {
        IndexByNameValue(members, known[k]);
      }
      return;
    }
    sortedMembers := SortMembers(order, members);
  }

  // --------------------------------------------------------------- filtering

  /** A filter rule: a name pattern's `search`, and whether a match rejects the name. */
  datatype Rule = Rule(search: string -> bool, exclude: bool)

  /** The index of the last rule whose pattern matches `name`, if any. */
  function LastMatch(name: string, filters: seq<Rule>): (m: Option<nat>)
    ensures m.Some? ==>
      m.value < |filters| && filters[m.value].search(name)
      && forall j :: m.value < j < |filters| ==> !filters[j].search(name)
    ensures m.None? ==> forall j :: 0 <= j < |filters| ==> !filters[j].search(name)
  {
    if filters == [] then None
    else if filters[|filters| - 1].search(name) then Some(|filters| - 1)
    else
      var m := LastMatch(name, filters[..|filters| - 1]);
      assert forall j :: 0 <= j < |filters| - 1 ==> filters[..|filters| - 1][j] == filters[j];
      m
  }

  /** The rule set is non-empty and holds include rules only. */
  predicate OnlyIncludeRules(filters: seq<Rule>) {
    |filters| > 0 && forall j :: 0 <= j < |filters| ==> !filters[j].exclude
  }

  /**
   * Whether `_keep_object` keeps `name`: the last matching rule decides; with no
   * match, an include-only rule set rejects and anything else keeps.
   */
  predicate Keeps(name: string, filters: seq<Rule>) {
    match LastMatch(name, filters)
    case Some(i) => !filters[i].exclude
    case None => !OnlyIncludeRules(filters)
  }

  /** `_keep_object`: walks the rules, recording each rule's flag and the verdict of each match. */
  method KeepObject(name: string, filters: seq<Rule>) returns (result: bool)
    ensures result == Keeps(name, filters)
    ensures forall i ::
      (0 <= i < |filters| && filters[i].search(name)
       && (forall j :: i < j < |filters| ==> !filters[j].search(name)))
      ==> result == !filters[i].exclude
    ensures (forall j :: 0 <= j < |filters| ==> !filters[j].search(name)) ==>
      (!result <==> |filters| > 0 && forall j :: 0 <= j < |filters| ==> !filters[j].exclude)
  {
    var keep: Option<bool> := None;
    var rules: set<bool> := {};
    var i := 0;
    while i < |filters|
      invariant 0 <= i <= |filters|
      invariant rules == set j | 0 <= j < i :: filters[j].exclude
      invariant keep == match LastMatch(name, filters[..i])
        case Some(k) => Some(!filters[k].exclude)
        case None => None
    {
      var rule := filters[i];
      rules := rules + {rule.exclude};
      if rule.search(name) {
        keep := Some(!rule.exclude);
      }
      assert filters[..i + 1][..i] == filters[..i];
      i := i + 1;
    }
    assert filters[..i] == filters;
    if keep.None? {
      OnlyFalseFlags(filters);
      if rules == {false} {
        return false;
      }
      return true;
    }
    return keep.value;
  }

  /** The set of exclude flags is `{False}` exactly for a non-empty, include-only rule set. */
  lemma OnlyFalseFlags(filters: seq<Rule>)
    ensures (set j | 0 <= j < |filters| :: filters[j].exclude) == {false} <==> OnlyIncludeRules(filters)
  {
    var flags := set j | 0 <= j < |filters| :: filters[j].exclude;
    if OnlyIncludeRules(filters) {
      assert filters[0].exclude in flags;
      assert flags == {false};
    }
    if flags == {false} {
      assert false in flags;
      forall j | 0 <= j < |filters| ensures !filters[j].exclude {
        assert filters[j].exclude in flags;
      }
    }
  }

  /** A rule appended to the set overrides every earlier rule when it matches. */
  lemma LaterMatchOverrides(name: string, filters: seq<Rule>, rule: Rule)
    requires rule.search(name)
    ensures Keeps(name, filters + [rule]) == !rule.exclude
  {
  }

  /** A rule appended to the set that does not match leaves an earlier match in charge. */
  lemma EarlierMatchStands(name: string, filters: seq<Rule>, rule: Rule)
    requires !rule.search(name) && LastMatch(name, filters).Some?
    ensures Keeps(name, filters + [rule]) == Keeps(name, filters)
  {
    assert (filters + [rule])[..|filters|] == filters;
  }

  /** With no rules at all, every name is kept. */
  lemma NoRulesKeepAll(name: string)
    ensures Keeps(name, [])
  {
  }

  /** What `members_list` may be: `None`, `True`/`False`, or a list of names. */
  datatype MembersList = Unset | Flag(all: bool) | Names(names: seq<string>)

  /** The values of a dictionary, given as its entries in insertion order. */
  function Values(entries: seq<(string, DocObject)>): seq<DocObject> {
    seq(|entries|, k requires 0 <= k < |entries| => entries[k].1)
  }

  /**
   * `do_filter_objects`: `False` or `[]` selects nothing, `True` everything, a
   * list the objects it names (in dictionary order); with no list, the filter
   * rules (when there are any) and then the docstring check decide.
   */
  function FilterObjects(
    entries: seq<(string, DocObject)>, filters: seq<Rule> := [], membersList: MembersList := Unset,
    keepNoDocstrings: bool := true)
    : (r: seq<DocObject>)
    ensures IsSubsequence(r, Values(entries))
    ensures membersList == Flag(false) || membersList == Names([]) ==> r == []
    ensures membersList == Flag(true) ==> r == Values(entries)
    ensures membersList.Names? ==>
      forall x :: x in r <==> x in Values(entries) && x.name in membersList.names
    ensures membersList.Names? ==>
      forall x :: multiset(r)[x] == if x.name in membersList.names then multiset(Values(entries))[x] else 0
    ensures membersList == Unset ==>
      forall x :: x in r <==>
        x in Values(entries) && Keeps(x.name, filters) && (keepNoDocstrings || x.hasDocstrings)
    ensures membersList == Unset ==>
      forall x :: multiset(r)[x] ==
        if Keeps(x.name, filters) && (keepNoDocstrings || x.hasDocstrings) then multiset(Values(entries))[x] else 0
  {
    if membersList == Flag(false) || membersList == Names([]) then []
    else
      var objects := Values(entries);
      if membersList == Flag(true) then
        assert IsSubsequence(objects, objects) by { SubsequenceReflexive(objects); }
        objects
      else if membersList.Names? then
        var listed := (obj: DocObject) => obj.name in membersList.names;
        FilterMultiplicity(listed, objects);
        Filter(listed, objects)
      else
        var keep := (obj: DocObject) => Keeps(obj.name, filters);
        FilterMultiplicity(keep, objects);
        var kept := if |filters| > 0 then Filter(keep, objects) else objects;
        assert IsSubsequence(kept, objects) by { SubsequenceReflexive(objects); }
        assert forall x :: multiset(kept)[x] == if Keeps(x.name, filters) then multiset(objects)[x] else 0;
        if keepNoDocstrings then kept
        else
          var documented := (obj: DocObject) => obj.hasDocstrings;
          FilterMultiplicity(documented, kept);
          var r := Filter(documented, kept);
          SubsequenceTransitive(r, kept, objects);
          r
  }

  lemma {:induction false} SubsequenceReflexive(s: seq<DocObject>)
    ensures IsSubsequence(s, s)
  {
    if s != [] {
      SubsequenceReflexive(s[1..]);
    }
  }

  lemma {:induction false} SubsequenceTransitive(a: seq<DocObject>, b: seq<DocObject>, c: seq<DocObject>)
    requires IsSubsequence(a, b) && IsSubsequence(b, c)
    ensures IsSubsequence(a, c)
    decreases |c|
  {
    if a != [] && c != [] {
      if b[0] == c[0] && IsSubsequence(b[1..], c[1..]) {
        if a[0] == b[0] && IsSubsequence(a[1..], b[1..]) {
          SubsequenceTransitive(a[1..], b[1..], c[1..]);
        } else {
          SubsequenceTransitive(a, b[1..], c[1..]);
          SubsequenceDropFirst(a, c[1..], c[0]);
        }
      } else {
        SubsequenceTransitive(a, b, c[1..]);
      }
    }
  }

  lemma SubsequenceDropFirst(a: seq<DocObject>, c: seq<DocObject>, x: DocObject)
    requires IsSubsequence(a, c)
    ensures IsSubsequence(a, [x] + c)
  {
    assert ([x] + c)[1..] == c;
  }

  // -------------------------------------------------------------- formatting

  /** The formatter used when Black is not installed: it returns the text unchanged. */
  function IdentityFormatter(text: string, lineLength: int): string {
    text
  }

  /** `do_format_code`: the stripped code, passed to the formatter only when it is not shorter than the limit. */
  function FormatCode(code: string, lineLength: int, formatter: (string, int) -> string): (r: string)
    ensures |Strip(code)| < lineLength ==> r == Strip(code) && |r| < lineLength
    ensures |Strip(code)| >= lineLength ==> r == formatter(Strip(code), lineLength)
  {
    var code := Strip(code);
    if |code| < lineLength then code else formatter(code, lineLength)
  }

  /**
   * `_format_signature`: the stripped name and signature, or, when they are
   * too long together, the name followed by the formatter's rendering of the
   * signature, obtained by formatting `def xxx...<signature>: pass` with a
   * placeholder name of the same length and cutting the wrapper off again.
   */
  function FormatSignature(name: string, signature: string, lineLength: int, formatter: (string, int) -> string)
    : (r: string)
    ensures |Strip(name) + Strip(signature)| < lineLength ==> r == Strip(name) + Strip(signature)
    ensures |Strip(name)| <= |r| && r[..|Strip(name)|] == Strip(name)
  {
    var name := Strip(name);
    var signature := Strip(signature);
    if |name + signature| < lineLength then name + signature
    else
      var nameLength := |name|;
      var formatable := "def " + Repeat('x', nameLength) + signature + ": pass";
      var formatted := formatter(formatable, lineLength);
      var cut := Slice(Strip(Slice(formatted, 4, -5)), nameLength, -1);
      assert (name + cut)[..|name|] == name;
      name + cut
  }

  /** The stripped code is a fixed point of the short path. */
  lemma FormatCodeIdempotent(code: string, lineLength: int, formatter: (string, int) -> string)
    requires |Strip(code)| < lineLength
    ensures FormatCode(FormatCode(code, lineLength, formatter), lineLength, formatter) == FormatCode(code, lineLength, formatter)
  {
    StripIdempotent(code);
  }

  /** Cutting `def ` and `: pass` off the placeholder definition leaves the placeholder, the signature and the colon. */
  lemma PlaceholderInner(xs: string, sig: string)
    ensures Slice("def " + xs + sig + ": pass", 4, -5) == xs + sig + ":"
  {
    var formatted := "def " + xs + sig + ": pass";
    assert Slice(formatted, 4, -5) == formatted[4..|formatted| - 5];
    assert formatted[4..|formatted| - 5] == xs + sig + ":";
  }

  /** The placeholder, the stripped signature and the colon have no whitespace at either end. */
  lemma PlaceholderInnerStripped(n: nat, sig: string)
    requires sig == [] || !IsSpace(sig[0])
    ensures Strip(Repeat('x', n) + sig + ":") == Repeat('x', n) + sig + ":"
  {
    var inner := Repeat('x', n) + sig + ":";
    assert inner[0] == if n > 0 then 'x' else if |sig| > 0 then sig[0] else ':';
    assert inner[|inner| - 1] == ':';
    StripUnchanged(inner);
  }

  /** Dropping the placeholder and the colon gives the signature back. */
  lemma PlaceholderCut(n: nat, sig: string)
    ensures Slice(Repeat('x', n) + sig + ":", n, -1) == sig
  {
    var inner := Repeat('x', n) + sig + ":";
    assert Slice(inner, n, -1) == inner[n..|inner| - 1];
    assert inner[n..|inner| - 1] == sig;
  }

  /** With the identity formatter, the long path also gives name and signature back unchanged. */
  lemma FormatSignatureIdentity(name: string, signature: string, lineLength: int)
    ensures FormatSignature(name, signature, lineLength, IdentityFormatter) == Strip(name) + Strip(signature)
  {
    var n, sig := Strip(name), Strip(signature);
    if |n + sig| >= lineLength {
      PlaceholderInner(Repeat('x', |n|), sig);
      PlaceholderInnerStripped(|n|, sig);
      PlaceholderCut(|n|, sig);
    }
  }

  // -------------------------------------------------------- cross-references

  /** A hoverable link: the full path in its hover attribute, and the text shown. */
  datatype Link = Link(hover: string, text: string)

  /** The markup `<span data-autorefs-optional-hover=HOVER>TEXT</span>` with both parts escaped. */
  function Span(link: Link, escape: string -> string): string {
    "<span data-autorefs-optional-hover=" + escape(link.hover) + ">" + escape(link.text) + "</span>"
  }

  /**
   * The link `do_crossref` renders: the full path as hover attribute; as text,
   * the part after the last dot when `brief`, else the full path.
   */
  function Crossref(path: string, brief: bool := true): (link: Link)
    ensures link.hover == path
    ensures !brief ==> link.text == path
    ensures brief ==>
      '.' !in link.text && |link.text| <= |path| && link.text == path[|path| - |link.text|..]
      && (|link.text| == |path| || path[|path| - |link.text| - 1] == '.')
  {
    var parts := Split(path, '.');
    SplitLast(path, '.');
    Link(path, if brief then parts[|parts| - 1] else path)
  }

  /** `do_crossref`. */
  function DoCrossref(path: string, escape: string -> string, brief: bool := true): (markup: string)
    ensures markup == Span(Crossref(path, brief), escape)
  {
    var fullPath := path;
    var path := if brief then Split(fullPath, '.')[|Split(fullPath, '.')| - 1] else fullPath;
    "<span data-autorefs-optional-hover=" + escape(fullPath) + ">" + escape(path) + "</span>"
  }

  /** A piece of scanned text: a maximal run of `[\w.]` characters, or a maximal run of others. */
  datatype Segment = Token(chars: string) | Gap(chars: string)

  /** A character of the class `[\w.]`. */
  predicate IsTokenChar(isWord: char -> bool, c: char) {
    isWord(c) || c == '.'
  }

  /** The text a sequence of segments spells. */
  function Concat(segments: seq<Segment>): string {
    if segments == [] then "" else segments[0].chars + Concat(segments[1..])
  }

  /** Segments that are non-empty, hold characters of their own class only, and alternate between the classes. */
  predicate Segmented(segments: seq<Segment>, isWord: char -> bool) {
    (forall k :: 0 <= k < |segments| ==> |segments[k].chars| > 0)
    && (forall k, c :: 0 <= k < |segments| && c in segments[k].chars ==>
         (IsTokenChar(isWord, c) <==> segments[k].Token?))
    && (forall k :: 0 <= k < |segments| - 1 ==> segments[k].Token? != segments[k + 1].Token?)
  }

  /** A segment with one more character in front, of the same class. */
  function Grow(segment: Segment, c: char): Segment {
    match segment
    case Token(t) => Token([c] + t)
    case Gap(t) => Gap([c] + t)
  }

  lemma PushMerged(c: char, rest: seq<Segment>, isWord: char -> bool)
    requires Segmented(rest, isWord) && |rest| > 0 && rest[0].Token? == IsTokenChar(isWord, c)
    ensures Segmented([Grow(rest[0], c)] + rest[1..], isWord)
  {
    var r := [Grow(rest[0], c)] + rest[1..];
    forall k, d | 0 <= k < |r| && d in r[k].chars
      ensures IsTokenChar(isWord, d) <==> r[k].Token?
    {
      if k > 0 {
        assert r[k] == rest[k];
      } else if d != c {
        assert d in rest[0].chars;
      }
    }
    forall k | 0 < k < |r| - 1 ensures r[k].Token? != r[k + 1].Token? {
      assert r[k] == rest[k] && r[k + 1] == rest[k + 1];
    }
    assert r[0].Token? == rest[0].Token?;
  }

  lemma PushSeparate(c: char, rest: seq<Segment>, isWord: char -> bool)
    requires Segmented(rest, isWord) && (|rest| == 0 || rest[0].Token? != IsTokenChar(isWord, c))
    ensures Segmented([if IsTokenChar(isWord, c) then Token([c]) else Gap([c])] + rest, isWord)
  {
    var r := [if IsTokenChar(isWord, c) then Token([c]) else Gap([c])] + rest;
    forall k, d | 0 <= k < |r| && d in r[k].chars
      ensures IsTokenChar(isWord, d) <==> r[k].Token?
    {
      if k > 0 {
        assert r[k] == rest[k - 1];
      }
    }
    forall k | 0 < k < |r| - 1 ensures r[k].Token? != r[k + 1].Token? {
      assert r[k] == rest[k - 1] && r[k + 1] == rest[k];
    }
  }

  /** One more character in front of a scanned text: it joins the first run when it is of the same class. */
  function PushChar(c: char, rest: seq<Segment>, isWord: char -> bool): (segments: seq<Segment>)
    requires Segmented(rest, isWord)
    ensures Concat(segments) == [c] + Concat(rest)
    ensures Segmented(segments, isWord)
  {
    var token := IsTokenChar(isWord, c);
    if |rest| > 0 && rest[0].Token? == token then
      var r := [Grow(rest[0], c)] + rest[1..];
      PushMerged(c, rest, isWord);
      assert r[1..] == rest[1..];
      assert Concat(rest) == rest[0].chars + Concat(rest[1..]);
      r
    else
      var r := [if token then Token([c]) else Gap([c])] + rest;
      PushSeparate(c, rest, isWord);
      assert r[1..] == rest;
      r
  }

  /**
   * How a regular-expression substitution of `[\w.]+` sees the text: cut into maximal
   * runs of token characters (the matches) and of other characters.
   */
  function Scan(text: string, isWord: char -> bool): (segments: seq<Segment>)
    ensures Concat(segments) == text
    ensures forall k :: 0 <= k < |segments| ==> |segments[k].chars| > 0
    ensures forall k, c :: 0 <= k < |segments| && c in segments[k].chars ==>
      (IsTokenChar(isWord, c) <==> segments[k].Token?)
    ensures forall k :: 0 <= k < |segments| - 1 ==> segments[k].Token? != segments[k + 1].Token?
  {
    if text == [] then []
    else
      assert [text[0]] + text[1..] == text;
      PushChar(text[0], Scan(text[1..], isWord), isWord)
  }

  /** What one segment contributes to the linked text. */
  function SegmentText(segment: Segment, escape: string -> string): string {
    match segment
    case Token(p) => Span(Link(p, p), escape)
    case Gap(t) => t
  }

  /** What `do_multi_crossref` produces segment by segment: each token as a link to itself, other text as it is. */
  function Linked(segments: seq<Segment>, escape: string -> string): string {
    if segments == [] then ""
    else
      Linked(segments[..|segments| - 1], escape) + SegmentText(segments[|segments| - 1], escape)
  }

  /** A piece of the template `do_multi_crossref` builds before formatting: literal text, or a span around `{pathN}`. */
  datatype Piece = Literal(text: string) | Placeholder(variable: string)

  /** The variables a template refers to are all defined. */
  predicate Defined(template: seq<Piece>, variables: map<string, string>) {
    forall k :: 0 <= k < |template| && template[k].Placeholder? ==> template[k].variable in variables
  }

  /** The formatting step of the markup: each placeholder span filled with its escaped path. */
  function Render(template: seq<Piece>, variables: map<string, string>, escape: string -> string): string
    requires Defined(template, variables)
  {
    if template == [] then ""
    else
      var last := template[|template| - 1];
      Render(template[..|template| - 1], variables, escape)
      + match last
        case Literal(t) => t
        case Placeholder(v) => Span(Link(variables[v], variables[v]), escape)
  }

  lemma {:induction false} RenderPrepend(t: string, template: seq<Piece>, variables: map<string, string>, escape: string -> string)
    requires Defined(template, variables)
    ensures Defined([Literal(t)] + template, variables)
    ensures Render([Literal(t)] + template, variables, escape) == t + Render(template, variables, escape)
  {
    var full := [Literal(t)] + template;
    if template != [] {
      assert full[..|full| - 1] == [Literal(t)] + template[..|template| - 1];
      RenderPrepend(t, template[..|template| - 1], variables, escape);
    } else {
      assert full[..0] == [];
    }
  }

  lemma {:induction false} RenderExtend(template: seq<Piece>, variables: map<string, string>, v: string, path: string, escape: string -> string)
    requires Defined(template, variables) && v !in variables
    ensures Defined(template, variables[v := path])
    ensures Render(template, variables[v := path], escape) == Render(template, variables, escape)
  {
    if template != [] {
      RenderExtend(template[..|template| - 1], variables, v, path, escape);
    }
  }

  /** The name of the n-th placeholder: `path` followed by the number in decimal. */
  function PathVariable(n: nat): string {
    "path" + Decimal(n)
  }

  /** Distinct numbers give distinct placeholder names. */
  lemma PathVariablesDiffer(a: nat, b: nat)
    requires a != b
    ensures PathVariable(a) != PathVariable(b)
  {
    assert PathVariable(a)[4..] == Decimal(a);
    assert PathVariable(b)[4..] == Decimal(b);
    DecimalInjective(a, b);
  }

  lemma LinkedStep(segments: seq<Segment>, i: nat, escape: string -> string)
    requires i < |segments|
    ensures Linked(segments[..i + 1], escape) == Linked(segments[..i], escape) + SegmentText(segments[i], escape)
  {
    assert segments[..i + 1][..i] == segments[..i];
  }

  lemma RenderLiteral(template: seq<Piece>, t: string, variables: map<string, string>, escape: string -> string)
    requires Defined(template, variables)
    ensures Defined(template + [Literal(t)], variables)
    ensures Render(template + [Literal(t)], variables, escape) == Render(template, variables, escape) + t
  {
    assert (template + [Literal(t)])[..|template|] == template;
  }

  lemma RenderPlaceholder(template: seq<Piece>, variables: map<string, string>, v: string, path: string, escape: string -> string)
    requires Defined(template, variables) && v !in variables
    ensures Defined(template + [Placeholder(v)], variables[v := path])
    ensures Render(template + [Placeholder(v)], variables[v := path], escape)
      == Render(template, variables, escape) + Span(Link(path, path), escape)
  {
    RenderExtend(template, variables, v, path, escape);
    assert (template + [Placeholder(v)])[..|template|] == template;
  }

  /** After a new placeholder is numbered, the names of all later numbers are still unused. */
  lemma LaterVariablesUnused(variables: map<string, string>, groupNumber: nat, path: string)
    requires forall n: nat :: n > groupNumber ==> PathVariable(n) !in variables
    ensures forall n: nat :: n > groupNumber + 1 ==> PathVariable(n) !in variables[PathVariable(groupNumber + 1) := path]
  {
    forall n: nat | n > groupNumber + 1 ensures PathVariable(n) !in variables[PathVariable(groupNumber + 1) := path] {
      PathVariablesDiffer(n, groupNumber + 1);
    }
  }

  lemma RenderWrapped(template: seq<Piece>, variables: map<string, string>, escape: string -> string)
    requires Defined(template, variables)
    ensures Defined([Literal("<code>")] + template + [Literal("</code>")], variables)
    ensures Render([Literal("<code>")] + template + [Literal("</code>")], variables, escape)
      == "<code>" + Render(template, variables, escape) + "</code>"
  {
    RenderPrepend("<code>", template, variables, escape);
    RenderLiteral([Literal("<code>")] + template, "</code>", variables, escape);
  }

  /**
   * `do_multi_crossref`: every maximal run of `[\w.]` characters becomes a
   * link to itself, through a numbered placeholder and a dictionary of paths;
   * the rest of the text is kept, and the whole is wrapped in `<code>` when
   * `code` is set.
   */
  method MultiCrossref(text: string, isWord: char -> bool, escape: string -> string, code: bool := true)
    returns (markup: string)
    ensures var linked := Linked(Scan(text, isWord), escape);
      markup == if code then "<code>" + linked + "</code>" else linked
  {
    var segments := Scan(text, isWord);
    var groupNumber: nat := 0;
    var variables: map<string, string> := map[];
    var template: seq<Piece> := [];
    var i := 0;
    while i < |segments|
      invariant 0 <= i <= |segments|
      invariant Defined(template, variables)
      invariant forall n: nat :: n > groupNumber ==> PathVariable(n) !in variables
      invariant Render(template, variables, escape) == Linked(segments[..i], escape)
    {
      LinkedStep(segments, i, escape);
      match segments[i] {
        case Token(path) =>
          LaterVariablesUnused(variables, groupNumber, path);
          groupNumber := groupNumber + 1;
          var pathVar := PathVariable(groupNumber);
          RenderPlaceholder(template, variables, pathVar, path, escape);
          variables := variables[pathVar := path];
          template := template + [Placeholder(pathVar)];
        case Gap(t) =>
          RenderLiteral(template, t, variables, escape);
          template := template + [Literal(t)];
      }
      i := i + 1;
    }
    assert segments[..i] == segments;
    if code {
      RenderWrapped(template, variables, escape);
      template := [Literal("<code>")] + template + [Literal("</code>")];
    }
    markup := Render(template, variables, escape);
  }

  // ---------------------------------------------------------------- templates

  /** The template the object's extra data names under `mkdocstrings`, or `""` when there is none. */
  function TemplateOverride(obj: DocObject): string {
    var extraData := if "mkdocstrings" in obj.extra then obj.extra["mkdocstrings"] else map[];
    if "template" in extraData then extraData["template"] else ""
  }

  /** `do_get_template`: the object's own template if it names a non-empty one, else `<kind>.html`. */
  function GetTemplate(obj: DocObject): (name: string)
    ensures |name| > 0
    ensures TemplateOverride(obj) != "" ==> name == TemplateOverride(obj)
    ensures TemplateOverride(obj) == "" ==>
      |name| > 5 && name[|name| - 5..] == ".html" && name[..|name| - 5] == KindValue(obj.kind)
  {
    var template := TemplateOverride(obj);
    if template != "" then template else KindValue(obj.kind) + ".html"
  }
}
