/**
 The Mapping tab and the classifier built on it. A data row is
 `(key, department)`; a trimmed key starting with `*` is a keyword rule,
 any other key an exact rule on the accounting service's own category name.
 Keyword rules are tried in table order by substring search on the
 lower-cased description; the first hit wins. Without a hit the exact rule
 for the transaction's category applies, and failing that a fixed default.
 */
module MappingRules {
  import opened Text
  import opened Records

  datatype KeywordRule = KeywordRule(keyword: string, category: string, department: string)

  /** The parsed Mapping tab: exact rules by category name, keyword rules in table order. */
  datatype Rules = Rules(exact: map<string, string>, keywords: seq<KeywordRule>)

  const NoRules := Rules(map[], [])

  /** The category label of a keyword rule is this prefix followed by the key without its stars. */
  const AutoPrefix := "Auto: "

  const DefaultCategory := "Uncategorised"
  const DefaultDepartment := "General Administrative"

  /** The trimmed first cell of a rule row. */
  function RuleKey(row: seq<string>): string {
    Trim(CellAt(row, 0))
  }

  /** The second cell of a rule row, taken as it stands. */
  function RuleDept(row: seq<string>): string {
    CellAt(row, 1)
  }

  predicate IsKeywordRow(row: seq<string>) {
    StartsWith(RuleKey(row), "*")
  }

  /** The keyword rule a starred row stands for. */
  function KeywordOf(row: seq<string>): KeywordRule {
    var bare := RemoveStars(RuleKey(row));
    KeywordRule(Lower(bare), AutoPrefix + bare, RuleDept(row))
  }

  /** How many of `rows` are keyword rows. */
  function KeywordCount(rows: seq<seq<string>>): nat
    decreases |rows|
  {
    if |rows| == 0 then 0
    else KeywordCount(rows[..|rows| - 1]) + (if IsKeywordRow(rows[|rows| - 1]) then 1 else 0)
  }

  /** Folds one data row into the rules read so far. */
  function AddRow(r: Rules, row: seq<string>): Rules {
    if IsKeywordRow(row) then r.(keywords := r.keywords + [KeywordOf(row)])
    else r.(exact := r.exact[RuleKey(row) := RuleDept(row)])
  }

  /** The data rows of the Mapping tab, folded in top to bottom. */
  function ParseRows(rows: seq<seq<string>>): Rules
    decreases |rows|
  {
    if |rows| == 0 then NoRules else AddRow(ParseRows(rows[..|rows| - 1]), rows[|rows| - 1])
  }

  /** Every keyword row yields exactly one keyword rule. */
  lemma {:induction false} KeywordRuleCount(rows: seq<seq<string>>)
    ensures |ParseRows(rows).keywords| == KeywordCount(rows)
    decreases |rows|
  {
    if |rows| > 0 {
      KeywordRuleCount(rows[..|rows| - 1]);
    }
  }

  /**
   Keyword rules keep table order: the rule of keyword row `i` comes right
   after the rules of the keyword rows above it.
   */
  lemma {:induction false} KeywordRuleOrder(rows: seq<seq<string>>, i: nat)
    requires i < |rows| && IsKeywordRow(rows[i])
    ensures KeywordCount(rows[..i]) < |ParseRows(rows).keywords|
    ensures ParseRows(rows).keywords[KeywordCount(rows[..i])] == KeywordOf(rows[i])
    decreases |rows|
  {
    var init := rows[..|rows| - 1];
    KeywordRuleCount(init);
    if i < |init| {
      assert init[..i] == rows[..i];
      KeywordRuleOrder(init, i);
    } else {
      assert rows[..i] == init;
    }
  }

  /** No row below row `i` has the same key. */
  ghost predicate IsLastWithKey(rows: seq<seq<string>>, i: nat)
    requires i < |rows|
  {
    forall j :: i < j < |rows| ==> RuleKey(rows[j]) != RuleKey(rows[i])
  }

  /** The exact rules are keyed by precisely the keys of the rows that are not keyword rows. */
  lemma {:induction false} ExactRuleKeys(rows: seq<seq<string>>, k: string)
    ensures k in ParseRows(rows).exact <==> exists i :: 0 <= i < |rows| && !IsKeywordRow(rows[i]) && RuleKey(rows[i]) == k
    decreases |rows|
  {
    if |rows| > 0 {
      var init := rows[..|rows| - 1];
      assert rows == init + [rows[|rows| - 1]];
      ExactSnoc(init, rows[|rows| - 1]);
      ExactRuleKeys(init, k);
      if exists i :: 0 <= i < |init| && !IsKeywordRow(init[i]) && RuleKey(init[i]) == k {
        var i :| 0 <= i < |init| && !IsKeywordRow(init[i]) && RuleKey(init[i]) == k;
        assert rows[i] == init[i];
      }
      if exists i :: 0 <= i < |rows| && !IsKeywordRow(rows[i]) && RuleKey(rows[i]) == k {
        var i :| 0 <= i < |rows| && !IsKeywordRow(rows[i]) && RuleKey(rows[i]) == k;
        if i < |init| { assert init[i] == rows[i]; }
      }
    }
  }

  /** When a key repeats, the lowest row with that key decides its department. */
  lemma {:induction false} ExactRuleLastWins(rows: seq<seq<string>>, i: nat)
    requires i < |rows| && !IsKeywordRow(rows[i]) && IsLastWithKey(rows, i)
    ensures RuleKey(rows[i]) in ParseRows(rows).exact
    ensures ParseRows(rows).exact[RuleKey(rows[i])] == RuleDept(rows[i])
    decreases |rows|
  {
    var init := rows[..|rows| - 1];
    var last := rows[|rows| - 1];
    assert rows == init + [last];
    ExactSnoc(init, last);
    if i < |init| {
      assert init[i] == rows[i];
      assert IsLastWithKey(init, i) by {
        forall j | i < j < |init| ensures RuleKey(init[j]) != RuleKey(init[i]) {
          assert init[j] == rows[j];
        }
      }
      ExactRuleLastWins(init, i);
      assert RuleKey(last) != RuleKey(rows[i]);
    }
  }

  /** Parsing one more row folds it into the rules read so far. */
  lemma ParseRowsSnoc(rows: seq<seq<string>>, row: seq<string>)
    ensures ParseRows(rows + [row]) == AddRow(ParseRows(rows), row)
  {
  }

  /** Parsing a table in two pieces gives the two pieces' keyword rules, upper piece first. */
  lemma {:induction false} ParseRowsKeywordsAppend(a: seq<seq<string>>, b: seq<seq<string>>)
    ensures ParseRows(a + b).keywords == ParseRows(a).keywords + ParseRows(b).keywords
    decreases |b|
  {
    if |b| == 0 {
      assert a + b == a;
    } else {
      var b' := b[..|b| - 1];
      var row := b[|b| - 1];
      assert a + b == (a + b') + [row];
      assert b == b' + [row];
      ParseRowsKeywordsAppend(a, b');
      ParseRowsSnoc(a + b', row);
      ParseRowsSnoc(b', row);
      if IsKeywordRow(row) {
        var ka := ParseRows(a).keywords;
        var kb := ParseRows(b').keywords;
        assert (ka + kb) + [KeywordOf(row)] == ka + (kb + [KeywordOf(row)]);
      }
    }
  }

  /** Parsing a table in two pieces gives the two pieces' exact rules, the lower piece overriding. */
  lemma {:induction false} ParseRowsExactAppend(a: seq<seq<string>>, b: seq<seq<string>>)
    ensures ParseRows(a + b).exact == ParseRows(a).exact + ParseRows(b).exact
    decreases |b|
  {
    if |b| == 0 {
      assert a + b == a;
    } else {
      var b' := b[..|b| - 1];
      var row := b[|b| - 1];
      assert a + b == (a + b') + [row];
      assert b == b' + [row];
      ParseRowsExactAppend(a, b');
      ExactSnoc(a + b', row);
      ExactSnoc(b', row);
      if !IsKeywordRow(row) {
        UnionUpdate(ParseRows(a).exact, ParseRows(b').exact, RuleKey(row), RuleDept(row));
      }
    }
  }

  /** Parsing one more row changes the exact rules only when it is not a keyword row, and then by one entry. */
  lemma ExactSnoc(rows: seq<seq<string>>, row: seq<string>)
    ensures ParseRows(rows + [row]).exact
      == if IsKeywordRow(row) then ParseRows(rows).exact else ParseRows(rows).exact[RuleKey(row) := RuleDept(row)]
  {
  }

  /** Updating a union updates its right-hand side. */
  lemma UnionUpdate(x: map<string, string>, y: map<string, string>, k: string, v: string)
    ensures (x + y)[k := v] == x + y[k := v]
  {
  }

  /** `getMappingRules`: the first row is a header and is skipped. */
  function ParseRules(table: Sheet): (r: Rules)
    ensures |table| <= 1 ==> r == NoRules
  {
    if |table| == 0 then NoRules else ParseRows(table[1..])
  }

  /** Header-independence: whatever the first row holds, it contributes no rule. */
  lemma ParseRulesSkipsHeader(header: seq<string>, rows: seq<seq<string>>)
    ensures ParseRules([header] + rows) == ParseRows(rows)
  {
  }

  /** The outcome of classifying one transaction. */
  datatype Classification = Classification(category: string, department: string, isKeywordMatch: bool)

  const Unclassified := Classification(DefaultCategory, DefaultDepartment, false)

  /** `desc.includes(rule.keyword)` on the already lower-cased description. */
  predicate Matches(rule: KeywordRule, desc: string) {
    Includes(desc, rule.keyword)
  }

  /** Rule `j` matches and no rule before it does. */
  ghost predicate IsFirstMatch(keywords: seq<KeywordRule>, desc: string, j: nat) {
    && j < |keywords|
    && Matches(keywords[j], desc)
    && forall m :: 0 <= m < j ==> !Matches(keywords[m], desc)
  }

  /** The index of the first rule at or after `from` that matches `desc`, if any. */
  function FirstMatch(keywords: seq<KeywordRule>, desc: string, from: nat): (r: Option<nat>)
    requires from <= |keywords|
    ensures r.Some? ==> from <= r.value < |keywords| && Matches(keywords[r.value], desc)
    ensures r.Some? ==> forall m :: from <= m < r.value ==> !Matches(keywords[m], desc)
    ensures r.None? ==> forall m :: from <= m < |keywords| ==> !Matches(keywords[m], desc)
    decreases |keywords| - from
  {
    if from == |keywords| then None
    else if Matches(keywords[from], desc) then Some(from)
    else FirstMatch(keywords, desc, from + 1)
  }

  /** `tx.category_name && rules.exact[tx.category_name]` is truthy: a non-empty name with a non-empty department. */
  predicate HasExactRule(exact: map<string, string>, categoryName: Option<string>) {
    && categoryName.Some?
    && categoryName.value != ""
    && categoryName.value in exact
    && exact[categoryName.value] != ""
  }

  /**
   The classifier of `runSync`. A null description is searched as "". The
   first keyword rule whose keyword occurs in the lower-cased description
   decides the category and department; only when none occurs does the exact
   rule for the transaction's category apply, and without one the defaults stand.
   */
  function Classify(description: Option<string>, categoryName: Option<string>, rules: Rules): (c: Classification)
    ensures c.isKeywordMatch <==>
      exists j :: 0 <= j < |rules.keywords| && Matches(rules.keywords[j], Lower(description.GetOr("")))
    ensures c.isKeywordMatch ==>
      exists j: nat :: IsFirstMatch(rules.keywords, Lower(description.GetOr("")), j)
        && c.category == rules.keywords[j].category && c.department == rules.keywords[j].department
    ensures !c.isKeywordMatch && HasExactRule(rules.exact, categoryName) ==>
      c == Classification(categoryName.value, rules.exact[categoryName.value], false)
    ensures !c.isKeywordMatch && !HasExactRule(rules.exact, categoryName) ==> c == Unclassified
  {
    var desc := Lower(description.GetOr(""));
    match FirstMatch(rules.keywords, desc, 0)
    case Some(j) =>
      assert IsFirstMatch(rules.keywords, desc, j);
      Classification(rules.keywords[j].category, rules.keywords[j].department, true)
    case None =>
      if HasExactRule(rules.exact, categoryName) then
        Classification(categoryName.value, rules.exact[categoryName.value], false)
      else Unclassified
  }

  /**
   Keyword precedence: when rule `i` matches and no earlier rule does, rule
   `i` classifies the transaction, whatever later rules and exact rules say.
   */
  lemma EarliestMatchWins(description: Option<string>, categoryName: Option<string>, rules: Rules, i: nat)
    requires IsFirstMatch(rules.keywords, Lower(description.GetOr("")), i)
    ensures Classify(description, categoryName, rules)
      == Classification(rules.keywords[i].category, rules.keywords[i].department, true)
  {
  }

  /** Rules added after a matching rule are never consulted. */
  lemma LaterRulesIgnored(description: Option<string>, categoryName: Option<string>, rules: Rules, extra: seq<KeywordRule>)
    requires exists j :: 0 <= j < |rules.keywords| && Matches(rules.keywords[j], Lower(description.GetOr("")))
    ensures Classify(description, categoryName, rules.(keywords := rules.keywords + extra))
      == Classify(description, categoryName, rules)
  {
    var desc := Lower(description.GetOr(""));
    var c := Classify(description, categoryName, rules);
    var j: nat :| IsFirstMatch(rules.keywords, desc, j)
        && c.category == rules.keywords[j].category && c.department == rules.keywords[j].department;
    var more := rules.(keywords := rules.keywords + extra);
    assert IsFirstMatch(more.keywords, desc, j);
    EarliestMatchWins(description, categoryName, more, j);
  }

  /**
   A bare `*` row at the top of the table has the empty keyword, which occurs
   in every description: every transaction is then auto-classified as
   "Auto: " with that row's department.
   */
  lemma BareStarMatchesEverything(dept: string, rows: seq<seq<string>>, description: Option<string>, categoryName: Option<string>)
    ensures Classify(description, categoryName, ParseRows([["*", dept]] + rows))
      == Classification(AutoPrefix, dept, true)
  {
    var star := ["*", dept];
    assert RuleKey(star) == "*";
    assert IsKeywordRow(star);
    assert RemoveStars(RuleKey(star)) == "";
    assert KeywordOf(star) == KeywordRule("", AutoPrefix, dept) by {
      assert Lower("") == "";
      assert AutoPrefix + "" == AutoPrefix;
    }
    assert ParseRows([star]) == Rules(map[], [KeywordRule("", AutoPrefix, dept)]) by {
      assert [star][..0] == [];
    }
    ParseRowsKeywordsAppend([star], rows);
    var rules := ParseRows([star] + rows);
    assert rules.keywords[0] == KeywordRule("", AutoPrefix, dept);
    EarliestMatchWins(description, categoryName, rules, 0);
  }
}
