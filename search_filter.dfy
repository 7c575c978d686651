/** `filterChildrenWithRegularExpression`: the second, authoritative stage of a search.
    Each candidate row the SQL pre-filter returned is rebuilt as a child and kept when the
    pattern matches its short id, or else when it matches the value of some highlighted
    field; the field branch checks `contains` first, so it adds a child at most once. */
module SearchFilter {
  import opened ChildTable
  import opened SearchQuery

  /** `pattern.matcher(subject).matches()` for the pattern compiled, case-insensitively,
      from the given source; Java's regular expressions are not part of this model. */
  type Matcher = (string, string) -> bool

  /** Everything the filter consults besides the candidate rows. */
  datatype Criteria = Criteria(
    model: ChildJson,
    matches: Matcher,
    pattern: string,
    fields: seq<string>)  // the ids of the highlighted form fields
  {
    predicate ShortIdMatches(child: Child)
    {
      matches(pattern, model.shortId(child.json))
    }

    /** Some of the first `upTo` highlighted fields has a value the pattern matches. */
    predicate FieldMatches(child: Child, upTo: nat)
      requires upTo <= |fields|
    {
      exists j :: 0 <= j < upTo && matches(pattern, model.optString(child.json, fields[j]))
    }

    /** The search accepts the child: its short id or some highlighted value matches. */
    predicate Admits(child: Child)
    {
      ShortIdMatches(child) || FieldMatches(child, |fields|)
    }

    function AdmitsRow(): Row -> bool
    {
      (r: Row) => Admits(ChildFrom(r))
    }

    function ShortIdRow(): Row -> bool
    {
      (r: Row) => ShortIdMatches(ChildFrom(r))
    }

    /** Whether the loop appends `child` to what it has kept so far. */
    predicate Adds(kept: seq<Child>, child: Child)
    {
      ShortIdMatches(child) || (child !in kept && FieldMatches(child, |fields|))
    }

    /** What the filter keeps from the candidate rows, row by row. */
    function Filtered(rows: seq<Row>): seq<Child>
    {
      if rows == [] then []
      else
        var kept := Filtered(rows[..|rows| - 1]);
        var child := ChildFrom(rows[|rows| - 1]);
        if Adds(kept, child) then kept + [child] else kept
    }

    /** The positions of the rows whose children `Filtered` appends. */
    function KeptIndices(rows: seq<Row>): seq<nat>
    {
      if rows == [] then []
      else
        KeptIndices(rows[..|rows| - 1])
          + if Adds(Filtered(rows[..|rows| - 1]), ChildFrom(rows[|rows| - 1])) then [|rows| - 1] else []
    }
  }

  /** The filter's loop over the cursor, with the field loop inside it. */
  method FilterChildrenWithRegularExpression(
    rows: seq<Row>, filterString: string, highlightedFields: seq<string>,
    model: ChildJson, matches: Matcher)
    returns (children: seq<Child>)
    ensures children == Criteria(model, matches, PatternSource(filterString), highlightedFields).Filtered(rows)
  {
    children := [];
    var pattern := BuildPatternFromSearchString(filterString);
    ghost var criteria := Criteria(model, matches, pattern, highlightedFields);
    var i := 0;
    while i < |rows|
      invariant 0 <= i <= |rows|
      invariant children == criteria.Filtered(rows[..i])
    {
      var child := ChildFrom(rows[i]);
      FilteredStep(criteria, rows, i);
      if matches(pattern, model.shortId(child.json)) {
        children := children + [child];
      } else {
        ghost var before := children;
        for j := 0 to |highlightedFields|
          invariant children == if child !in before && criteria.FieldMatches(child, j)
                                then before + [child] else before
        {
          FieldMatchesStep(criteria, child, j);
          var formFieldMatchesPattern := matches(pattern, model.optString(child.json, highlightedFields[j]));
          if child !in children && formFieldMatchesPattern {
            children := children + [child];
          }
        }
      }
      i := i + 1;
    }
    assert rows[..i] == rows;
  }

  /** One more candidate row: `Filtered` appends its child exactly when `Adds` says so. */
  lemma FilteredStep(c: Criteria, rows: seq<Row>, i: nat)
    requires i < |rows|
    ensures var kept := c.Filtered(rows[..i]);
            var child := ChildFrom(rows[i]);
            c.Filtered(rows[..i + 1]) == if c.Adds(kept, child) then kept + [child] else kept
  {
    assert rows[..i + 1][..i] == rows[..i];
  }

  /** One more highlighted field: it matches, or one of the earlier ones did. */
  lemma FieldMatchesStep(c: Criteria, child: Child, j: nat)
    requires j < |c.fields|
    ensures c.FieldMatches(child, j + 1) <==>
            c.FieldMatches(child, j) || c.matches(c.pattern, c.model.optString(child.json, c.fields[j]))
  {
  }

  /** Every kept child comes from a candidate row that the search admits, and the kept
      children appear in the order of their rows. */
  lemma {:induction false} FilteredInOrder(c: Criteria, rows: seq<Row>)
    ensures |c.KeptIndices(rows)| == |c.Filtered(rows)|
    ensures forall t :: 0 <= t < |c.KeptIndices(rows)| ==>
              c.KeptIndices(rows)[t] < |rows| &&
              c.Filtered(rows)[t] == ChildFrom(rows[c.KeptIndices(rows)[t]]) &&
              c.Admits(c.Filtered(rows)[t])
    ensures forall t1, t2 :: 0 <= t1 < t2 < |c.KeptIndices(rows)| ==>
              c.KeptIndices(rows)[t1] < c.KeptIndices(rows)[t2]
  {
    if rows != [] {
      var init := rows[..|rows| - 1];
      FilteredInOrder(c, init);
      assert forall k :: 0 <= k < |init| ==> init[k] == rows[k];
    }
  }

  /** Every candidate the search admits ends up in the result (perhaps as an equal child
      kept earlier). */
  lemma {:induction false} FilteredComplete(c: Criteria, rows: seq<Row>)
    ensures forall k :: 0 <= k < |rows| && c.Admits(ChildFrom(rows[k])) ==> ChildFrom(rows[k]) in c.Filtered(rows)
  {
    if rows != [] {
      var init := rows[..|rows| - 1];
      FilteredComplete(c, init);
      assert forall k :: 0 <= k < |init| ==> init[k] == rows[k];
    }
  }

  predicate Distinct(children: seq<Child>)
  {
    forall i, j :: 0 <= i < j < |children| ==> children[i] != children[j]
  }

  /** With distinct children, the last row's child is not among the children of any
      selection from the rows before it. */
  lemma LastNotSelected(rows: seq<Row>, p: Row -> bool)
    requires rows != [] && Distinct(Children(rows))
    ensures ChildFrom(rows[|rows| - 1]) !in Children(Where(rows[..|rows| - 1], p))
  {
    var n := |rows|;
    var init := rows[..n - 1];
    var w := Where(init, p);
    WhereMembers(init, p);
    forall t | 0 <= t < |w| ensures Children(w)[t] != ChildFrom(rows[n - 1]) {
      assert w[t] in init;
      var j :| 0 <= j < |init| && init[j] == w[t];
      assert Children(w)[t] == ChildFrom(w[t]);
      assert Children(rows)[j] == ChildFrom(rows[j]) && Children(rows)[n - 1] == ChildFrom(rows[n - 1]);
    }
  }

  /** When the candidates are pairwise different, the result is exactly the admitted
      candidates in cursor order. */
  lemma {:induction false} FilteredExact(c: Criteria, rows: seq<Row>)
    requires Distinct(Children(rows))
    ensures c.Filtered(rows) == Children(Where(rows, c.AdmitsRow()))
  {
    if rows != [] {
      var n := |rows|;
      var init := rows[..n - 1];
      var last := ChildFrom(rows[n - 1]);
      assert Distinct(Children(init)) by {
        assert forall k :: 0 <= k < |init| ==> Children(init)[k] == Children(rows)[k];
      }
      FilteredExact(c, init);
      var kept := c.Filtered(init);
      LastNotSelected(rows, c.AdmitsRow());
      assert Children(Where(rows, c.AdmitsRow()))
             == Children(Where(init, c.AdmitsRow())) + (if c.Admits(last) then [last] else []);
    }
  }

  /** With no highlighted fields (the source's null list included), only the short id
      decides, and every candidate whose short id matches is kept, duplicates and all. */
  lemma {:induction false} ShortIdOnly(c: Criteria, rows: seq<Row>)
    requires c.fields == []
    ensures c.Filtered(rows) == Children(Where(rows, c.ShortIdRow()))
  {
    if rows != [] {
      var init := rows[..|rows| - 1];
      var last := ChildFrom(rows[|rows| - 1]);
      ShortIdOnly(c, init);
      assert !c.FieldMatches(last, 0);
      assert Children(Where(rows, c.ShortIdRow()))
             == Children(Where(init, c.ShortIdRow())) + (if c.ShortIdMatches(last) then [last] else []);
    }
  }
}
