/** Ordering accounts by a priority rule (src/shared/account-usage-rules.ts:14-17, 32-36). */
module AccountRules {
  import opened Lists

  /** `orderAccountsByRule`: the rule's ids that are available, then the rest in their own order. */
  function Ordered(rule: seq<string>, available: seq<string>): seq<string> {
    Listed(rule, available) + Rest(rule, available)
  }

  function Listed(rule: seq<string>, available: seq<string>): seq<string>
    decreases |rule|
  {
    if rule == [] then []
    else
      var x := rule[|rule| - 1];
      Listed(rule[..|rule| - 1], available) + (if x in available && x !in rule[..|rule| - 1] then [x] else [])
  }

  function Rest(rule: seq<string>, available: seq<string>): seq<string>
    decreases |available|
  {
    if available == [] then []
    else
      var x := available[|available| - 1];
      Rest(rule, available[..|available| - 1]) + (if x !in rule then [x] else [])
  }

  lemma {:induction false} ListedMembers(rule: seq<string>, available: seq<string>)
    ensures forall x :: x in Listed(rule, available) <==> x in rule && x in available
    decreases |rule|
  {
    if rule != [] {
      ListedMembers(rule[..|rule| - 1], available);
      assert rule == rule[..|rule| - 1] + [rule[|rule| - 1]];
    }
  }

  lemma {:induction false} RestMembers(rule: seq<string>, available: seq<string>)
    ensures forall x :: x in Rest(rule, available) <==> x !in rule && x in available
    decreases |available|
  {
    if available != [] {
      RestMembers(rule, available[..|available| - 1]);
      assert available == available[..|available| - 1] + [available[|available| - 1]];
    }
  }

  lemma OrderedMembers(rule: seq<string>, available: seq<string>)
    ensures forall x :: x in Ordered(rule, available) <==> x in available
  {
    ListedMembers(rule, available);
    RestMembers(rule, available);
  }

  lemma {:induction false} ListedMinus(rule: seq<string>, ids: seq<string>, x: string)
    ensures Listed(rule, Minus(ids, x)) == Minus(Listed(rule, ids), x)
    decreases |rule|
  {
    MinusMembers(ids, x);
    if rule != [] {
      var init, last := rule[..|rule| - 1], rule[|rule| - 1];
      ListedMinus(init, ids, x);
      MinusSplit(Listed(init, ids), if last in ids && last !in init then [last] else [], x);
      MinusOne(last, x);
    }
  }

  lemma RestSnoc(rule: seq<string>, ids: seq<string>, y: string)
    ensures Rest(rule, ids + [y]) == Rest(rule, ids) + (if y !in rule then [y] else [])
  {
    assert (ids + [y])[..|ids|] == ids;
  }

  lemma {:induction false} RestMinus(rule: seq<string>, ids: seq<string>, x: string)
    ensures Rest(rule, Minus(ids, x)) == Minus(Rest(rule, ids), x)
    decreases |ids|
  {
    if ids != [] {
      var init, last := ids[..|ids| - 1], ids[|ids| - 1];
      RestMinus(rule, init, x);
      MinusSplit(Rest(rule, init), if last !in rule then [last] else [], x);
      MinusOne(last, x);
      RestSnoc(rule, Minus(init, x), last);
      if last == x {
        assert Minus(ids, x) == Minus(init, x);
        assert Minus(Rest(rule, ids), x) == Minus(Rest(rule, init), x);
      } else {
        assert Minus(ids, x) == Minus(init, x) + [last];
      }
    }
  }

  lemma {:induction false} ListedDistinct(rule: seq<string>, ids: seq<string>)
    ensures Distinct(Listed(rule, ids))
    decreases |rule|
  {
    if rule != [] {
      ListedDistinct(rule[..|rule| - 1], ids);
      ListedMembers(rule[..|rule| - 1], ids);
    }
  }

  lemma {:induction false} RestDistinct(rule: seq<string>, ids: seq<string>)
    requires Distinct(ids)
    ensures Distinct(Rest(rule, ids))
    decreases |ids|
  {
    if ids != [] {
      RestDistinct(rule, ids[..|ids| - 1]);
      RestMembers(rule, ids[..|ids| - 1]);
    }
  }

  lemma OrderedDistinct(rule: seq<string>, ids: seq<string>)
    requires Distinct(ids)
    ensures Distinct(Ordered(rule, ids))
  {
    ListedDistinct(rule, ids);
    RestDistinct(rule, ids);
    ListedMembers(rule, ids);
    RestMembers(rule, ids);
    var l, r := Listed(rule, ids), Rest(rule, ids);
    hide Listed, Rest;
    assert forall i :: 0 <= i < |l| ==> l[i] in l;
    assert forall i :: 0 <= i < |r| ==> r[i] in r;
  }

  lemma OrderedMinus(rule: seq<string>, ids: seq<string>, x: string)
    ensures Ordered(rule, Minus(ids, x)) == Minus(Ordered(rule, ids), x)
  {
    hide Listed, Rest, Minus;
    ListedMinus(rule, ids, x);
    RestMinus(rule, ids, x);
    MinusSplit(Listed(rule, ids), Rest(rule, ids), x);
  }

  /** The rule's order without its first account is the order of the accounts that are left. */
  lemma OrderedTail(rule: seq<string>, ids: seq<string>, i: nat)
    requires Distinct(ids) && i < |ids| && Ordered(rule, ids) != [] && Ordered(rule, ids)[0] == ids[i]
    ensures Ordered(rule, Without(ids, i)) == Ordered(rule, ids)[1..]
  {
    hide Ordered, Minus;
    MinusAt(ids, i);
    OrderedMinus(rule, ids, ids[i]);
    OrderedDistinct(rule, ids);
    MinusAt(Ordered(rule, ids), 0);
  }

  lemma {:induction false} NothingOrdered(rule: seq<string>)
    ensures Ordered(rule, []) == []
  {
    if rule != [] { NothingOrdered(rule[..|rule| - 1]); }
  }

  predicate Before(ids: seq<string>, x: string, y: string)
    requires x in ids && y in ids
  {
    IndexIn(ids, x) < IndexIn(ids, y)
  }

  lemma BeforeSnoc(s: seq<string>, z: string, x: string, y: string)
    requires x in s + [z] && y in s + [z] && x != y
    ensures Before(s + [z], x, y) <==> x in s && (y in s ==> Before(s, x, y))
  {
    IndexInConcat(s, [z], x);
    IndexInConcat(s, [z], y);
    assert x !in s ==> x == z;
    assert y !in s ==> y == z;
    hide IndexIn;
  }

  lemma {:induction false} ListedOrder(rule: seq<string>, ids: seq<string>, x: string, y: string)
    requires x in rule && y in rule && x in ids && y in ids && x != y
    ensures x in Listed(rule, ids) && y in Listed(rule, ids)
    ensures Before(Listed(rule, ids), x, y) <==> Before(rule, x, y)
    decreases |rule|
  {
    ListedMembers(rule, ids);
    var init, last := rule[..|rule| - 1], rule[|rule| - 1];
    assert rule == init + [last];
    ListedMembers(init, ids);
    hide Before;
    BeforeSnoc(init, last, x, y);
    if x in init && y in init {
      ListedOrder(init, ids, x, y);
    }
    if last in ids && last !in init {
      BeforeSnoc(Listed(init, ids), last, x, y);
    } else {
      assert Listed(rule, ids) == Listed(init, ids);
    }
  }

  lemma {:induction false} RestOrder(rule: seq<string>, ids: seq<string>, x: string, y: string)
    requires Distinct(ids) && x in ids && y in ids && x !in rule && y !in rule && x != y
    ensures x in Rest(rule, ids) && y in Rest(rule, ids)
    ensures Before(Rest(rule, ids), x, y) <==> Before(ids, x, y)
    decreases |ids|
  {
    RestMembers(rule, ids);
    var init, last := ids[..|ids| - 1], ids[|ids| - 1];
    assert ids == init + [last];
    RestMembers(rule, init);
    hide Before;
    BeforeSnoc(init, last, x, y);
    if x in init && y in init {
      RestOrder(rule, init, x, y);
    }
    if last !in rule {
      BeforeSnoc(Rest(rule, init), last, x, y);
    } else {
      assert Rest(rule, ids) == Rest(rule, init);
    }
  }

  /** By rule, the accounts that it lists come first, in the order of the rule, and the others follow in their own. */
  lemma OrderedByRule(rule: seq<string>, ids: seq<string>, x: string, y: string)
    requires Distinct(ids) && x in ids && y in ids && x != y
    ensures x in Ordered(rule, ids) && y in Ordered(rule, ids)
    ensures Before(Ordered(rule, ids), x, y)
            <==> if x in rule && y in rule then Before(rule, x, y)
                 else if x !in rule && y !in rule then Before(ids, x, y)
                 else x in rule
  {
    OrderedMembers(rule, ids);
    ListedMembers(rule, ids);
    RestMembers(rule, ids);
    var listed, rest := Listed(rule, ids), Rest(rule, ids);
    IndexInConcat(listed, rest, x);
    IndexInConcat(listed, rest, y);
    if x in rule && y in rule { ListedOrder(rule, ids, x, y); }
    if x !in rule && y !in rule { RestOrder(rule, ids, x, y); }
    hide Listed, Rest, IndexIn;
  }
}
