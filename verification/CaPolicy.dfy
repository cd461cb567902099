/** The policy a CA applies to the subject of a request. */
module CaPolicy {
  import opened CStrings

  /** ASN1_STRING_cmp compares length, bytes and type. */
  datatype Asn1String = Asn1String(kind: int, data: seq<bv8>)

  /** A name entry; entries with the same part number form one multi-valued part of the name. */
  datatype Entry = Entry(obj: int, str: Asn1String, part: nat)

  datatype Attribute = Attribute(obj: int, str: Asn1String)

  /** obj is absent when the name of the item is not an object the library knows. */
  datatype Item = Item(obj: Option<int>, value: string)

  // ----- the declarative reading -----

  /** The attributes of one type, in order. */
  function Pick(name: seq<Entry>, obj: int): seq<Attribute> {
    if name == [] then []
    else
      var last := name[|name| - 1];
      Pick(name[..|name| - 1], obj) + if last.obj == obj then [Attribute(obj, last.str)] else []
  }

  ghost predicate Occurs(name: seq<Entry>, a: Attribute) {
    exists i :: 0 <= i < |name| && name[i].obj == a.obj && name[i].str == a.str
  }

  ghost predicate ItemMet(item: Item, name: seq<Entry>, ca: seq<Entry>) {
    && item.obj.Some?
    && item.value in {"optional", "supplied", "match"}
    && (item.value != "optional" ==> exists i :: 0 <= i < |name| && name[i].obj == item.obj.value)
    && (item.value == "match" ==>
          forall i :: 0 <= i < |name| && name[i].obj == item.obj.value ==>
            Occurs(ca, Attribute(name[i].obj, name[i].str)))
  }

  ghost predicate PolicyMet(policy: seq<Item>, name: seq<Entry>, ca: seq<Entry>) {
    forall i :: 0 <= i < |policy| ==> ItemMet(policy[i], name, ca)
  }

  /** Per item in order, the request's attributes of its type in request order. */
  function Selected(policy: seq<Item>, name: seq<Entry>): seq<Attribute> {
    if policy == [] then []
    else
      var item := policy[|policy| - 1];
      Selected(policy[..|policy| - 1], name) + if item.obj.Some? then Pick(name, item.obj.value) else []
  }

  function Attributes(name: seq<Entry>): (r: seq<Attribute>)
    ensures |r| == |name| && forall i :: 0 <= i < |r| ==> r[i] == Attribute(name[i].obj, name[i].str)
  {
    seq(|name|, i requires 0 <= i < |name| => Attribute(name[i].obj, name[i].str))
  }

  /** Every part of the name has one value, and the parts are numbered from 0. */
  predicate SingleValued(name: seq<Entry>) {
    forall i :: 0 <= i < |name| ==> name[i].part == i
  }

  // ----- the library's names -----

  method GetIndexByObj(name: seq<Entry>, obj: int, lastpos: int) returns (j: int)
    ensures j == -1 || (lastpos < j < |name| && 0 <= j && name[j].obj == obj)
    ensures forall k :: 0 <= k < (if j < 0 then |name| else j) && lastpos < k ==> name[k].obj != obj
  {
    var pos := if lastpos < 0 then -1 else lastpos;
    pos := pos + 1;
    while pos < |name|
      invariant 0 <= pos && lastpos < pos
      invariant forall k :: 0 <= k < pos && k < |name| && lastpos < k ==> name[k].obj != obj
    {
      if name[pos].obj == obj {
        return pos;
      }
      pos := pos + 1;
    }
    return -1;
  }

  /** X509_NAME_add_entry at the end, as a part of its own. */
  function AddEntry(name: seq<Entry>, ne: Entry): (r: seq<Entry>)
    ensures SingleValued(name) ==> SingleValued(r)
  {
    name + [ne.(part := if name == [] then 0 else name[|name| - 1].part + 1)]
  }

  lemma {:induction false} PickSkips(name: seq<Entry>, obj: int, a: nat, b: nat)
    requires a <= b <= |name| && forall k :: a <= k < b ==> name[k].obj != obj
    ensures Pick(name[..b], obj) == Pick(name[..a], obj)
  {
    if a < b {
      assert name[..b][..b - 1] == name[..b - 1];
      PickSkips(name, obj, a, b - 1);
    }
  }

  lemma PickNext(name: seq<Entry>, obj: int, last: int, j: nat)
    requires -1 <= last < j < |name| && name[j].obj == obj && forall k :: last < k < j ==> name[k].obj != obj
    ensures Pick(name[..j + 1], obj) == Pick(name[..last + 1], obj) + [Attribute(obj, name[j].str)]
  {
    PickSkips(name, obj, last + 1, j);
    assert name[..j + 1][..j] == name[..j];
  }

  // ----- the loops -----

  /** The loop over the CA's entries of a type: the first one equal to the request's. */
  method FindInCa(ca: seq<Entry>, obj: int, str: Asn1String) returns (j: int)
    ensures j >= 0 ==> j < |ca| && ca[j].obj == obj && ca[j].str == str
    ensures j < 0 ==> !Occurs(ca, Attribute(obj, str))
  {
    var last2 := -1;
    while true
      invariant -1 <= last2 < |ca|
      invariant forall k :: 0 <= k <= last2 ==> ca[k].obj != obj || ca[k].str != str
      decreases |ca| - last2
    {
      j := GetIndexByObj(ca, obj, last2);
      if j < 0 && last2 == -1 {
        return -1;
      }
      if j >= 0 {
        last2 := j;
        if ca[j].str != str {
          continue;
        }
      }
      return j;
    }
  }

  method ApplyItem(cv: Item, name: seq<Entry>, ca: seq<Entry>, subject0: seq<Entry>)
    returns (ok: bool, subject: seq<Entry>)
    ensures ok <==> ItemMet(cv, name, ca)
    ensures ok ==> Attributes(subject) == Attributes(subject0) + Pick(name, cv.obj.value)
    ensures SingleValued(subject0) ==> SingleValued(subject)
  {
    subject := subject0;
    if cv.obj.None? {
      return false, subject;
    }
    var obj := cv.obj.value;
    var last := -1;
    while true
      invariant -1 <= last < |name| && (last >= 0 ==> name[last].obj == obj)
      invariant last >= 0 ==> cv.value in {"optional", "supplied", "match"}
      invariant Attributes(subject) == Attributes(subject0) + Pick(name[..last + 1], obj)
      invariant SingleValued(subject0) ==> SingleValued(subject)
      invariant cv.value == "match" ==>
                  forall k :: 0 <= k <= last && name[k].obj == obj ==> Occurs(ca, Attribute(name[k].obj, name[k].str))
      decreases |name| - last
    {
      var j := GetIndexByObj(name, obj, last);
      if j < 0 {
        PickSkips(name, obj, last + 1, |name|);
        assert name[..|name|] == name;
        if last != -1 {
          break;
        }
      }
      var tne := if j < 0 then None else Some(name[j]);
      if j >= 0 {
        PickNext(name, obj, last, j);
      }
      ghost var before := last;
      last := j;
      var push: Option<Entry> := None;
      if cv.value == "optional" {
        if tne.Some? {
          push := tne;
        }
      } else if cv.value == "supplied" {
        if tne.None? {
          return false, subject;
        } else {
          push := tne;
        }
      } else if cv.value == "match" {
        if tne.None? {
          return false, subject;
        }
        j := FindInCa(ca, obj, tne.value.str);
        if j < 0 {
          assert !Occurs(ca, Attribute(name[last].obj, name[last].str));
          return false, subject;
        }
        push := Some(ca[j]);
      } else {
        return false, subject;
      }
      if push.Some? {
        var grown := AddEntry(subject, push.value);
        assert Attributes(grown) == Attributes(subject) + [Attribute(obj, name[last].str)];
        subject := grown;
      }
      if j < 0 {
        break;
      }
    }
    ok := true;
  }

  // ----- where the subject's entries come from -----

  /** An item of the policy and an entry of the request. */
  type Place = (nat, nat)

  predicate Before(p: Place, q: Place) {
    p.0 < q.0 || (p.0 == q.0 && p.1 < q.1)
  }

  ghost predicate InOrder(at: seq<Place>) {
    forall k, m :: 0 <= k < m < |at| ==> Before(at[k], at[m])
  }

  /** The item names the type of the entry. */
  predicate Matches(policy: seq<Item>, name: seq<Entry>, p: Place) {
    p.0 < |policy| && p.1 < |name| && policy[p.0].obj == Some(name[p.1].obj)
  }

  ghost predicate Lists(at: seq<Place>, p: Place) {
    exists k :: 0 <= k < |at| && at[k] == p
  }

  /** at goes through all matching pairs, item after item and for each item entry after entry. */
  ghost predicate AllMatches(policy: seq<Item>, name: seq<Entry>, at: seq<Place>) {
    && (forall k :: 0 <= k < |at| ==> Matches(policy, name, at[k]))
    && InOrder(at)
    && (forall p {:trigger Matches(policy, name, p)} :: Matches(policy, name, p) ==> Lists(at, p))
  }

  /** The subject is made of the request's entries at these pairs. */
  ghost predicate TakenFrom(policy: seq<Item>, name: seq<Entry>, subject: seq<Entry>, at: seq<Place>) {
    && AllMatches(policy, name, at) && |subject| == |at|
    && forall k :: 0 <= k < |at| ==>
         Matches(policy, name, at[k])
         && subject[k].obj == name[at[k].1].obj && subject[k].str == name[at[k].1].str
  }

  /** The pairs of one item with the first n entries. */
  ghost predicate ItemMatches(policy: seq<Item>, name: seq<Entry>, i: nat, n: nat, at: seq<Place>) {
    && (forall k :: 0 <= k < |at| ==> at[k].0 == i && at[k].1 < n && Matches(policy, name, at[k]))
    && InOrder(at)
    && (forall j: nat :: j < n && Matches(policy, name, (i, j)) ==> Lists(at, (i, j)))
  }

  lemma ListsMore(at: seq<Place>, p: Place)
    ensures Lists(at + [p], p) && forall q :: Lists(at, q) ==> Lists(at + [p], q)
  {
    assert (at + [p])[|at|] == p;
    forall q | Lists(at, q) ensures Lists(at + [p], q) {
      var k :| 0 <= k < |at| && at[k] == q;
      assert (at + [p])[k] == q;
    }
  }

  /** The attributes of the entries at these places. */
  ghost predicate AttributesAt(attrs: seq<Attribute>, name: seq<Entry>, at: seq<Place>) {
    && |attrs| == |at|
    && forall k :: 0 <= k < |at| ==>
         at[k].1 < |name| && attrs[k] == Attribute(name[at[k].1].obj, name[at[k].1].str)
  }

  lemma AttributesJoin(attrs: seq<Attribute>, more: seq<Attribute>, name: seq<Entry>, at: seq<Place>,
                       places: seq<Place>)
    requires AttributesAt(attrs, name, at) && AttributesAt(more, name, places)
    ensures AttributesAt(attrs + more, name, at + places)
  {
  }

  lemma ItemNext(policy: seq<Item>, name: seq<Entry>, i: nat, n: nat, at: seq<Place>)
    requires ItemMatches(policy, name, i, n, at)
    ensures if Matches(policy, name, (i, n)) then ItemMatches(policy, name, i, n + 1, at + [(i, n)])
            else ItemMatches(policy, name, i, n + 1, at)
  {
    ListsMore(at, (i, n));
  }

  /** What is picked are the entries of the item, in order. */
  lemma {:induction false} PickAt(policy: seq<Item>, name: seq<Entry>, i: nat, n: nat) returns (at: seq<Place>)
    requires i < |policy| && policy[i].obj.Some? && n <= |name|
    ensures ItemMatches(policy, name, i, n, at)
    ensures AttributesAt(Pick(name[..n], policy[i].obj.value), name, at)
  {
    if n == 0 {
      at := [];
    } else {
      at := PickAt(policy, name, i, n - 1);
      assert name[..n][..n - 1] == name[..n - 1];
      ItemNext(policy, name, i, n - 1, at);
      if Matches(policy, name, (i, n - 1)) {
        at := at + [(i, n - 1)];
      }
    }
  }

  /** The pairs of the first m items. */
  ghost predicate MatchesBelow(policy: seq<Item>, name: seq<Entry>, m: nat, at: seq<Place>) {
    && (forall k :: 0 <= k < |at| ==> at[k].0 < m && Matches(policy, name, at[k]))
    && InOrder(at)
    && (forall i: nat, j: nat :: i < m && Matches(policy, name, (i, j)) ==> Lists(at, (i, j)))
  }

  lemma ListsJoin(at: seq<Place>, more: seq<Place>)
    ensures forall p :: Lists(at, p) || Lists(more, p) ==> Lists(at + more, p)
  {
    forall p | Lists(at, p) || Lists(more, p) ensures Lists(at + more, p) {
      if Lists(at, p) {
        var k :| 0 <= k < |at| && at[k] == p;
        assert (at + more)[k] == p;
      } else {
        var k :| 0 <= k < |more| && more[k] == p;
        assert (at + more)[|at| + k] == p;
      }
    }
  }

  lemma OneMoreItem(policy: seq<Item>, name: seq<Entry>, m: nat, at: seq<Place>, more: seq<Place>)
    requires MatchesBelow(policy, name, m, at) && ItemMatches(policy, name, m, |name|, more)
    ensures MatchesBelow(policy, name, m + 1, at + more)
  {
    ListsJoin(at, more);
  }

  lemma {:induction false} SelectedBelow(policy: seq<Item>, name: seq<Entry>, m: nat) returns (at: seq<Place>)
    requires m <= |policy|
    ensures MatchesBelow(policy, name, m, at)
    ensures AttributesAt(Selected(policy[..m], name), name, at)
  {
    if m == 0 {
      at := [];
    } else {
      at := SelectedBelow(policy, name, m - 1);
      var more, picked: seq<Attribute> := [], [];
      if policy[m - 1].obj.Some? {
        more := PickAt(policy, name, m - 1, |name|);
        assert name[..|name|] == name;
        picked := Pick(name, policy[m - 1].obj.value);
      }
      SelectedNext(policy, name, m);
      AttributesJoin(Selected(policy[..m - 1], name), picked, name, at, more);
      OneMoreItem(policy, name, m - 1, at, more);
      at := at + more;
    }
  }

  lemma SelectedNext(policy: seq<Item>, name: seq<Entry>, m: nat)
    requires 0 < m <= |policy|
    ensures Selected(policy[..m], name)
            == Selected(policy[..m - 1], name)
               + if policy[m - 1].obj.Some? then Pick(name, policy[m - 1].obj.value) else []
  {
    assert policy[..m][..m - 1] == policy[..m - 1];
  }

  lemma SelectedAt(policy: seq<Item>, name: seq<Entry>) returns (at: seq<Place>)
    ensures AllMatches(policy, name, at)
    ensures AttributesAt(Selected(policy, name), name, at)
  {
    at := SelectedBelow(policy, name, |policy|);
    assert policy[..|policy|] == policy;
    forall p | Matches(policy, name, p) ensures Lists(at, p) {
      assert Matches(policy, name, (p.0, p.1));
    }
  }

  lemma SameAttributes(policy: seq<Item>, name: seq<Entry>, subject: seq<Entry>, at: seq<Place>)
    requires AllMatches(policy, name, at) && Attributes(subject) == Selected(policy, name)
    requires AttributesAt(Selected(policy, name), name, at)
    ensures TakenFrom(policy, name, subject, at)
  {
    forall k | 0 <= k < |at|
      ensures subject[k].obj == name[at[k].1].obj && subject[k].str == name[at[k].1].str
    {
      assert Attributes(subject)[k] == Selected(policy, name)[k];
    }
  }

  // ----- the policy loop -----

  method ApplyPolicy(policy: seq<Item>, name: seq<Entry>, ca: seq<Entry>, preserve: bool)
    returns (ok: bool, subject: seq<Entry>)
    ensures ok <==> PolicyMet(policy, name, ca)
    ensures ok && preserve ==> subject == name
    ensures ok && !preserve ==> SingleValued(subject) && exists at :: TakenFrom(policy, name, subject, at)
  {
    subject := [];
    for i := 0 to |policy|
      invariant forall k :: 0 <= k < i ==> ItemMet(policy[k], name, ca)
      invariant Attributes(subject) == Selected(policy[..i], name) && SingleValued(subject)
    {
      assert policy[..i + 1][..i] == policy[..i];
      ok, subject := ApplyItem(policy[i], name, ca, subject);
      if !ok {
        return;
      }
    }
    assert policy[..|policy|] == policy;
    ok := true;
    if preserve {
      subject := name;
    } else {
      ghost var at := SelectedAt(policy, name);
      SameAttributes(policy, name, subject, at);
    }
  }

  lemma NotBefore(at: seq<Place>, at': seq<Place>, n: nat)
    requires InOrder(at) && InOrder(at') && n < |at| && n < |at'|
    requires (forall m :: 0 <= m < n ==> at[m] == at'[m]) && Lists(at', at[n])
    ensures !Before(at[n], at'[n])
  {
    forall m | 0 <= m < n ensures at'[m] != at[n] {
      assert Before(at[m], at[n]);
    }
    var a :| 0 <= a < |at'| && at'[a] == at[n];
    if a > n {
      assert Before(at'[n], at'[a]);
    }
  }

  /** The order fixes the subject: there is one way to go through all pairs. */
  lemma {:induction false} OneOrder(policy: seq<Item>, name: seq<Entry>, at: seq<Place>, at': seq<Place>, k: nat)
    requires AllMatches(policy, name, at) && AllMatches(policy, name, at') && k <= |at| && k <= |at'|
    ensures forall m :: 0 <= m < k ==> at[m] == at'[m]
  {
    if k > 0 {
      OneOrder(policy, name, at, at', k - 1);
      assert Matches(policy, name, at[k - 1]) && Matches(policy, name, at'[k - 1]);
      NotBefore(at, at', k - 1);
      NotBefore(at', at, k - 1);
    }
  }

  /** A policy is refused exactly for an item of an unknown type or kind, a type that is missing, or a value to be
      matched that the CA's name does not have. */
  lemma RefusedIff(policy: seq<Item>, name: seq<Entry>, ca: seq<Entry>)
    ensures !PolicyMet(policy, name, ca) <==> exists i :: 0 <= i < |policy| && Refuses(policy[i], name, ca)
  {
    forall i | 0 <= i < |policy| ensures Refuses(policy[i], name, ca) <==> !ItemMet(policy[i], name, ca) {
    }
  }

  ghost predicate Refuses(item: Item, name: seq<Entry>, ca: seq<Entry>) {
    || item.obj.None?
    || item.value !in {"optional", "supplied", "match"}
    || (item.value in {"supplied", "match"} && forall i :: 0 <= i < |name| ==> name[i].obj != item.obj.value)
    || (item.value == "match" && exists i :: 0 <= i < |name| && name[i].obj == item.obj.value
                                             && !Occurs(ca, Attribute(name[i].obj, name[i].str)))
  }

  // ----- what the subject keeps of the request -----

  /** How many items of the policy name a type. */
  function Mentions(policy: seq<Item>, obj: int): nat {
    if policy == [] then 0
    else Mentions(policy[..|policy| - 1], obj) + if policy[|policy| - 1].obj == Some(obj) then 1 else 0
  }

  lemma {:induction false} PickCount(name: seq<Entry>, obj: int, a: Attribute)
    ensures multiset(Pick(name, obj))[a] == if a.obj == obj then multiset(Attributes(name))[a] else 0
  {
    if name != [] {
      var init, last := name[..|name| - 1], name[|name| - 1];
      PickCount(init, obj, a);
      assert Attributes(name) == Attributes(init) + [Attribute(last.obj, last.str)];
    }
  }

  lemma TimesNext(n: nat, m: nat)
    ensures (n + 1) * m == n * m + m
  {
  }

  /** Each attribute of the request is in the subject once for every item that names its type, and nothing else
      is: a type without an item is dropped, and no attribute is made up. */
  lemma {:induction false} SelectedCount(policy: seq<Item>, name: seq<Entry>, a: Attribute)
    ensures multiset(Selected(policy, name))[a] == Mentions(policy, a.obj) * multiset(Attributes(name))[a]
  {
    if policy != [] {
      var init, item := policy[..|policy| - 1], policy[|policy| - 1];
      SelectedCount(init, name, a);
      if item.obj.Some? {
        PickCount(name, item.obj.value, a);
        TimesNext(Mentions(init, a.obj), multiset(Attributes(name))[a]);
      }
    }
  }

  lemma {:induction false} EveryMention(policy: seq<Item>, obj: int)
    requires forall i, j :: 0 <= i < j < |policy| && policy[i].obj == Some(obj) ==> policy[j].obj != Some(obj)
    ensures Mentions(policy, obj) == if exists i :: 0 <= i < |policy| && policy[i].obj == Some(obj) then 1 else 0
  {
    if policy != [] {
      var init := policy[..|policy| - 1];
      EveryMention(init, obj);
      assert forall i :: 0 <= i < |init| ==> init[i] == policy[i];
    }
  }

  /** A policy that names every type of the request, each once. */
  ghost predicate Complete(policy: seq<Item>, name: seq<Entry>) {
    && (forall i, j :: 0 <= i < j < |policy| ==> policy[i].obj != policy[j].obj)
    && (forall i :: 0 <= i < |name| ==> Named(policy, name[i].obj))
  }

  ghost predicate Named(policy: seq<Item>, obj: int) {
    exists i :: 0 <= i < |policy| && policy[i].obj == Some(obj)
  }

  lemma CompleteCount(policy: seq<Item>, name: seq<Entry>, a: Attribute)
    requires Complete(policy, name)
    ensures multiset(Selected(policy, name))[a] == multiset(Attributes(name))[a]
  {
    SelectedCount(policy, name, a);
    EveryMention(policy, a.obj);
    if a in Attributes(name) {
      var i :| 0 <= i < |name| && Attributes(name)[i] == a;
      assert Named(policy, name[i].obj);
    }
  }

  /** Such a policy only reorders the request. */
  lemma CompletePolicyPermutes(policy: seq<Item>, name: seq<Entry>)
    requires Complete(policy, name)
    ensures multiset(Selected(policy, name)) == multiset(Attributes(name))
  {
    forall a: Attribute ensures multiset(Selected(policy, name))[a] == multiset(Attributes(name))[a] {
      CompleteCount(policy, name, a);
    }
  }

  lemma OccursInItself(name: seq<Entry>)
    ensures forall i :: 0 <= i < |name| ==> Occurs(name, Attribute(name[i].obj, name[i].str))
  {
  }

  /** Signing its own request, a CA can refuse a well-formed policy only for an attribute that is missing. */
  lemma SelfSigned(policy: seq<Item>, name: seq<Entry>)
    requires forall i :: 0 <= i < |policy| ==>
               policy[i].obj.Some? && policy[i].value in {"optional", "supplied", "match"}
    ensures PolicyMet(policy, name, name)
            <==> forall i :: 0 <= i < |policy| && policy[i].value != "optional" ==>
                   exists k :: 0 <= k < |name| && name[k].obj == policy[i].obj.value
  {
    OccursInItself(name);
    if PolicyMet(policy, name, name) {
      forall i | 0 <= i < |policy| && policy[i].value != "optional"
        ensures exists k :: 0 <= k < |name| && name[k].obj == policy[i].obj.value
      {
        assert ItemMet(policy[i], name, name);
      }
    }
  }
}
