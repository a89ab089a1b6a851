/**
 * Page-ordering rules of 2024/day_5: a rule `first|second` asks that the
 * first occurrence of `first` in an update precede the first occurrence of
 * `second`; updates that break a rule are repaired by swapping the two pages.
 */
module PageOrdering {
  import opened Wrappers

  /** An ordering rule `first|second`. */
  datatype Rule = Rule(first: nat, second: nat)

  /** `position`: the offset of the first occurrence of `x`. */
  function Position(pages: seq<nat>, x: nat): (r: Option<nat>)
    ensures r.Some? ==> r.value < |pages| && pages[r.value] == x && x !in pages[..r.value]
    ensures r.None? <==> x !in pages
    decreases |pages|
  {
    if pages == [] then None
    else if pages[0] == x then Some(0)
    else match Position(pages[1..], x)
      case None => None
      case Some(i) =>
        assert pages[1..][..i] == pages[1..i + 1];
        assert pages[..i + 1] == [pages[0]] + pages[1..i + 1];
        Some(i + 1)
  }

  /** `Rule::get_indices`: the first occurrences of both pages of the rule. */
  function GetIndices(rule: Rule, pages: seq<nat>): (Option<nat>, Option<nat>)
  {
    (Position(pages, rule.first), Position(pages, rule.second))
  }

  /**
   * `Rule::check_update`: no verdict unless both pages occur; otherwise whether
   * `first` occurs before any occurrence of `second`.
   */
  function CheckUpdate(rule: Rule, pages: seq<nat>): (r: Option<bool>)
    ensures r.None? <==> rule.first !in pages || rule.second !in pages
    ensures r == Some(true) <==>
      rule.second in pages && exists i :: 0 <= i < |pages| && pages[i] == rule.first && rule.second !in pages[..i + 1]
    ensures r == Some(false) <==>
      rule.first in pages && exists j :: 0 <= j < |pages| && pages[j] == rule.second && rule.first !in pages[..j]
  {
    match GetIndices(rule, pages)
    case (Some(f), Some(s)) =>
      FirstBeforeOrder(pages, rule.first, rule.second, f, s);
      if f < s then
        assert rule.second !in pages[..f + 1] by {
          assert pages[..f + 1] <= pages[..s];
        }
        assert pages[f] == rule.first;
        Some(true)
      else
        assert pages[s] == rule.second && rule.first !in pages[..s];
        Some(false)
    case _ => None
  }

  /** Whichever first occurrence comes first, the other value is absent before it. */
  lemma FirstBeforeOrder(pages: seq<nat>, a: nat, b: nat, f: nat, s: nat)
    requires Position(pages, a) == Some(f) && Position(pages, b) == Some(s)
    ensures forall i :: 0 <= i < |pages| && pages[i] == a && b !in pages[..i + 1] ==> f < s
    ensures forall j :: 0 <= j < |pages| && pages[j] == b && a !in pages[..j] ==> s <= f
  {
  }

  /** No rule reports a violation of `pages`. */
  ghost predicate Obeys(rules: seq<Rule>, pages: seq<nat>)
  {
    forall k :: 0 <= k < |rules| ==> CheckUpdate(rules[k], pages) != Some(false)
  }

  /** `Rule::fix`: the pages after swapping the two first occurrences, if both occur. */
  function Fixed(rule: Rule, pages: seq<nat>): (r: seq<nat>)
    ensures |r| == |pages| && multiset(r) == multiset(pages)
    ensures rule.first in pages && rule.second in pages ==>
      var f, s := Position(pages, rule.first).value, Position(pages, rule.second).value;
      r[f] == rule.second && r[s] == rule.first &&
      forall k :: 0 <= k < |pages| && k != f && k != s ==> r[k] == pages[k]
    ensures rule.first !in pages || rule.second !in pages ==> r == pages
  {
    match GetIndices(rule, pages)
    case (Some(f), Some(s)) => pages[f := pages[s]][s := pages[f]]
    case _ => pages
  }

  /** `Rule::fix` on the update held in an array. */
  method Fix(rule: Rule, pages: array<nat>)
    modifies pages
    ensures pages[..] == Fixed(rule, old(pages[..]))
  {
    var indices := GetIndices(rule, pages[..]);
    if indices.0.Some? && indices.1.Some? {
      var f, s := indices.0.value, indices.1.value;
      pages[f], pages[s] := pages[s], pages[f];
    }
  }

  /**
   * On an update without repeated pages and a rule with two different pages,
   * a rule reporting a violation is satisfied after `fix`.
   */
  lemma FixRepairs(rule: Rule, pages: seq<nat>)
    requires rule.first != rule.second
    requires forall i, j :: 0 <= i < j < |pages| ==> pages[i] != pages[j]
    requires CheckUpdate(rule, pages) == Some(false)
    ensures CheckUpdate(rule, Fixed(rule, pages)) == Some(true)
  {
    var f, s := Position(pages, rule.first).value, Position(pages, rule.second).value;
    var r := Fixed(rule, pages);
    assert s < f;
    assert rule.second !in r[..s + 1] by {
      forall k | 0 <= k <= s
        ensures r[k] != rule.second
      {
        if k != s {
          assert r[k] == pages[k] && pages[f] == rule.first;
        }
      }
    }
  }

  /**
   * `handle_update`: the rules are tried in order and the first violation gives
   * `None`; otherwise the middle page, if the update is not empty.
   */
  function HandleUpdate(pages: seq<nat>, rules: seq<Rule>): (r: Option<nat>)
    ensures r.Some? <==> |pages| > 0 && Obeys(rules, pages)
    ensures r.Some? ==> r.value == pages[|pages| / 2]
    decreases |rules|
  {
    if rules == [] then
      if |pages| > 0 then Some(pages[|pages| / 2]) else None
    else if CheckUpdate(rules[0], pages) == Some(false) then None
    else
      var rest := HandleUpdate(pages, rules[1..]);
      assert Obeys(rules, pages) <==> Obeys(rules[1..], pages) by {
        if Obeys(rules[1..], pages) {
          forall k | 0 <= k < |rules| ensures CheckUpdate(rules[k], pages) != Some(false) {
            if k > 0 {
              assert rules[k] == rules[1..][k - 1];
            }
          }
        }
      }
      rest
  }

  /** `handle_ordering_rule`: the rule made of the first two pages is appended. */
  function HandleOrderingRule(pages: seq<nat>, rules: seq<Rule>): (r: seq<Rule>)
    requires |pages| >= 2
    ensures |r| == |rules| + 1 && r[..|rules|] == rules
    ensures r[|rules|] == Rule(pages[0], pages[1])
  {
    rules + [Rule(pages[0], pages[1])]
  }

  /**
   * One pass of the loop in `fix_pages` over `rules`: every rule that reports a
   * violation on the current pages fixes them; the flag says whether any did.
   * A pass that fixes nothing leaves the pages as they were and found no
   * violation.
   */
  function Pass(rules: seq<Rule>, pages: seq<nat>): (r: (seq<nat>, bool))
    ensures |r.0| == |pages| && multiset(r.0) == multiset(pages)
    ensures !r.1 ==> r.0 == pages && Obeys(rules, pages)
    decreases |rules|
  {
    if rules == [] then (pages, false)
    else
      var before := Pass(rules[..|rules| - 1], pages);
      var rule := rules[|rules| - 1];
      if CheckUpdate(rule, before.0) == Some(false) then (Fixed(rule, before.0), true)
      else
        assert !before.1 ==> Obeys(rules, pages) by {
          if !before.1 {
            forall k | 0 <= k < |rules| ensures CheckUpdate(rules[k], pages) != Some(false) {
              if k < |rules| - 1 {
                assert rules[k] == rules[..|rules| - 1][k];
              }
            }
          }
        }
        (before.0, before.1)
  }

  /** One more rule of the pass: it repairs what the earlier rules left, or keeps it. */
  lemma PassExtend(rules: seq<Rule>, k: nat, pages: seq<nat>)
    requires k < |rules|
    ensures var before := Pass(rules[..k], pages);
      Pass(rules[..k + 1], pages) ==
        if CheckUpdate(rules[k], before.0) == Some(false) then (Fixed(rules[k], before.0), true) else before
  {
    assert rules[..k + 1][..k] == rules[..k];
  }

  /** The `for rule in ordering_rules` pass of `fix_pages`, in place. */
  method FixPass(pages: array<nat>, rules: seq<Rule>) returns (fixed: bool)
    modifies pages
    ensures (pages[..], fixed) == Pass(rules, old(pages[..]))
  {
    fixed := false;
    for k := 0 to |rules|
      invariant (pages[..], fixed) == Pass(rules[..k], old(pages[..]))
    {
      PassExtend(rules, k, old(pages[..]));
      if CheckUpdate(rules[k], pages[..]) == Some(false) {
        Fix(rules[k], pages);
        fixed := true;
      }
    }
    assert rules[..|rules|] == rules;
  }

  /**
   * `fix_pages`, with at most `fuel` repair passes: an update that already
   * obeys every rule gives `None` untouched; a returned page is the middle
   * page of repaired pages that obey every rule. Repairs only permute pages.
   */
  method FixPages(pages: array<nat>, rules: seq<Rule>, fuel: nat) returns (r: Option<nat>)
    modifies pages
    ensures multiset(pages[..]) == multiset(old(pages[..]))
    ensures HandleUpdate(old(pages[..]), rules).Some? ==> r.None? && pages[..] == old(pages[..])
    ensures r.Some? ==> pages.Length > 0 && Obeys(rules, pages[..]) && r.value == pages[pages.Length / 2]
  {
    if HandleUpdate(pages[..], rules).Some? {
      return None;
    }
    var passes := 0;
    while passes < fuel
      invariant multiset(pages[..]) == multiset(old(pages[..]))
    {
      var fixed := FixPass(pages, rules);
      var middle := HandleUpdate(pages[..], rules);
      if middle.Some? {
        return middle;
      }
      if !fixed {
        break;
      }
      passes := passes + 1;
    }
    return None;
  }

  /**
   * The `!fixed` exit of `fix_pages` is taken only for an empty update: a pass
   * that fixes nothing found no violation, so `handle_update` succeeds on any
   * non-empty update.
   */
  lemma QuietPassMeansObeyed(rules: seq<Rule>, pages: seq<nat>)
    requires !Pass(rules, pages).1 && |pages| > 0
    ensures HandleUpdate(Pass(rules, pages).0, rules) == Some(pages[|pages| / 2])
  {
  }
}
