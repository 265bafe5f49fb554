/** src/kex.c, algorithm negotiation over comma-separated name-lists (RFC 4253, section 7.1). */
module Negotiation {
  import opened Bytes
  import opened Options
  import opened KexInit

  const COMMA: byte := 0x2c

  /** Position of the first comma at or after from, or the end of the list. */
  function CommaAt(list: seq<byte>, from: nat): (c: nat)
    requires from <= |list|
    ensures from <= c <= |list| && (c < |list| ==> list[c] == COMMA)
    ensures forall k :: from <= k < c ==> list[k] != COMMA
    decreases |list| - from
  {
    if from == |list| || list[from] == COMMA then from else CommaAt(list, from + 1)
  }

  /** The names from a position on; a comma at the very end does not start another name. */
  function NamesFrom(list: seq<byte>, from: nat): seq<seq<byte>>
    requires from <= |list|
    decreases |list| - from
  {
    if from == |list| then []
    else
      var c := CommaAt(list, from);
      [list[from..c]] + if c == |list| then [] else NamesFrom(list, c + 1)
  }

  function Names(list: seq<byte>): seq<seq<byte>> { NamesFrom(list, 0) }

  /** A name both ends support. */
  predicate Common(name: seq<byte>, server: seq<byte>) { name != [] && name in Names(server) }

  function Join(names: seq<seq<byte>>): seq<byte> {
    if names == [] then [] else if |names| == 1 then names[0] else names[0] + [COMMA] + Join(names[1..])
  }

  lemma {:induction false} CommaSkips(list: seq<byte>, p: nat, q: nat)
    requires p <= q <= |list| && forall k :: p <= k < q ==> list[k] != COMMA
    ensures CommaAt(list, p) == CommaAt(list, q)
    decreases q - p
  {
    if p < q { CommaSkips(list, p + 1, q); }
  }

  lemma NamesNext(list: seq<byte>, p: nat)
    requires p < |list|
    ensures var c := CommaAt(list, p);
      NamesFrom(list, p) == [list[p..c]] + if c == |list| then [] else NamesFrom(list, c + 1)
  {
    hide CommaAt;
  }

  lemma NoNames(list: seq<byte>)
    ensures NamesFrom(list, |list|) == []
  {
  }

  lemma CommaStops(list: seq<byte>, p: nat)
    requires p <= |list| && (p == |list| || list[p] == COMMA)
    ensures CommaAt(list, p) == p
  {
  }

  /** Splitting undoes joining, for names without commas of which the last is not empty. */
  lemma {:induction false} NamesOfJoin(a: seq<byte>, names: seq<seq<byte>>)
    requires forall i :: 0 <= i < |names| ==> COMMA !in names[i]
    requires names != [] ==> names[|names| - 1] != []
    ensures NamesFrom(a + Join(names), |a|) == names
    decreases |names|
  {
    hide NamesFrom, CommaAt;
    var list := a + Join(names);
    if names == [] {
      NoNames(list);
    } else if |names| == 1 {
      LastName(a, names[0]);
    } else {
      NamesOfJoin(a + names[0] + [COMMA], names[1..]);
      assert list == a + names[0] + [COMMA] + Join(names[1..]);
      OneName(a, names[0], Join(names[1..]));
      assert names == [names[0]] + names[1..];
    }
  }

  /** "a,b" in ASCII. */
  lemma NamesExample()
    ensures Names([0x61, 0x2c, 0x62]) == [[0x61], [0x62]]
  {
    var names: seq<seq<byte>> := [[0x61], [0x62]];
    NamesOfJoin([], names);
    assert names[1..] == [[0x62]];
    assert [] + Join(names) == [0x61, 0x2c, 0x62];
  }

  lemma LastName(a: seq<byte>, n: seq<byte>)
    requires COMMA !in n && n != []
    ensures NamesFrom(a + n, |a|) == [n]
  {
    hide NamesFrom, CommaAt;
    CommaSkips(a + n, |a|, |a| + |n|);
    CommaStops(a + n, |a| + |n|);
    NamesNext(a + n, |a|);
    assert (a + n)[|a|..|a + n|] == n;
    assert [n] + [] == [n];
  }

  lemma OneName(a: seq<byte>, n: seq<byte>, rest: seq<byte>)
    requires COMMA !in n
    ensures NamesFrom(a + n + [COMMA] + rest, |a|) == [n] + NamesFrom(a + n + [COMMA] + rest, |a + n + [COMMA]|)
  {
    hide NamesFrom, CommaAt;
    var list := a + n + [COMMA] + rest;
    CommaSkips(list, |a|, |a| + |n|);
    CommaStops(list, |a| + |n|);
    NamesNext(list, |a|);
    assert list[|a|..|a| + |n|] == n;
  }

  /** strchr(p, ',') */
  method FindComma(list: seq<byte>, p: nat) returns (c: nat)
    requires p <= |list|
    ensures c == CommaAt(list, p)
  {
    c := p;
    while c < |list| && list[c] != COMMA
      invariant p <= c <= |list| && CommaAt(list, p) == CommaAt(list, c)
    {
      c := c + 1;
    }
  }

  /** list_contains */
  method ListContains(list: seq<byte>, item: seq<byte>) returns (found: bool)
    ensures found <==> Common(item, list)
  {
    hide NamesFrom, CommaAt;
    if |item| == 0 { return false; }
    NoNames(list);
    var p := 0;
    while p < |list|
      invariant p <= |list|
      invariant item in Names(list) <==> item in NamesFrom(list, p)
    {
      NamesNext(list, p);
      var comma := FindComma(list, p);
      if list[p..comma] == item { return true; }
      if comma == |list| { return false; }
      p := comma + 1;
    }
    found := false;
  }

  /** match_list: the first of the client's names that the server also has; NULL lists match
      nothing. */
  method MatchList(client: Option<seq<byte>>, server: Option<seq<byte>>) returns (m: Option<seq<byte>>)
    ensures Negotiated(m, client, server)
  {
    hide NamesFrom, CommaAt, Common;
    if client.None? || server.None? { return None; }
    NoNames(client.value);
    var list := client.value;
    ghost var before: seq<seq<byte>> := [];
    assert before + NamesFrom(list, 0) == Names(list);
    var p := 0;
    while p < |list|
      invariant p <= |list| && before + NamesFrom(list, p) == Names(list)
      invariant forall n :: n in before ==> !Common(n, server.value)
    {
      NamesNext(list, p);
      var comma := FindComma(list, p);
      var name := list[p..comma];
      var both := ListContains(server.value, name);
      if both {
        assert Names(list)[|before|] == name;
        assert forall j :: 0 <= j < |before| ==> Names(list)[j] == before[j];
        return Some(name);
      }
      before := before + [name];
      if comma == |list| {
        assert before == Names(list);
        return None;
      }
      p := comma + 1;
    }
    assert before + [] == before;
    m := None;
  }

  /** m is the outcome RFC 4253 prescribes: the first client name the server supports, or none
      when there is no common name. */
  ghost predicate Negotiated(m: Option<seq<byte>>, client: Option<seq<byte>>, server: Option<seq<byte>>) {
    if client.None? || server.None? then m.None?
    else
      match m
      case None => forall n :: n in Names(client.value) ==> !Common(n, server.value)
      case Some(n) => IsFirstCommon(n, Names(client.value), server.value)
  }

  /** n is on both lists and every earlier client name is not. */
  ghost predicate IsFirstCommon(n: seq<byte>, client: seq<seq<byte>>, server: seq<byte>) {
    exists i ::
      && 0 <= i < |client| && client[i] == n && Common(n, server)
      && (forall j :: 0 <= j < i ==> !Common(client[j], server))
  }

  /** The outcome is determined by the two lists. */
  lemma OutcomeUnique(m: Option<seq<byte>>, n: Option<seq<byte>>, client: Option<seq<byte>>, server: Option<seq<byte>>)
    requires Negotiated(m, client, server) && Negotiated(n, client, server)
    ensures m == n
  {
    hide Names, Common;
  }

  lemma NullMatchesNothing(client: Option<seq<byte>>, server: Option<seq<byte>>)
    requires client.None? || server.None?
    ensures Negotiated(None, client, server)
  {
  }

  /** A message whose first eight strings do not fit is of no use to either end: whatever the other
      one proposes, some pair has no common name. */
  lemma MisfitFails(u: seq<byte>, other: Init)
    requires Read(u).0.Some? && other.Valid()
    ensures |u| >= 17 && Read(u).0.value.Valid()
    ensures !StringsFit(u[17..], 8) ==> var k := Read(u).0.value;
      exists i :: 0 <= i < 8 && Negotiated(None, k.lists[i], other.lists[i]) && Negotiated(None, other.lists[i], k.lists[i])
  {
    ListsPresent(u[17..], 8);
    ReadPrefix(u[17..], 8, 10);
    hide StringsFit, ReadLists, Negotiated;
    if !StringsFit(u[17..], 8) {
      var lists := ReadLists(u[17..], 8).0;
      var i :| 0 <= i < 8 && lists[i].None?;
      assert Read(u).0.value.lists[i] == ReadLists(u[17..], 10).0[..8][i];
      NullMatchesNothing(lists[i], other.lists[i]);
      NullMatchesNothing(other.lists[i], lists[i]);
    }
  }

  /** kex_negotiate: the first eight lists are matched in turn; one failure fails the whole. */
  method Negotiate(c: Init, s: Init) returns (chosen: Option<seq<seq<byte>>>)
    requires c.Valid() && s.Valid()
    ensures chosen.None? <==> exists i :: 0 <= i < 8 && Negotiated(None, c.lists[i], s.lists[i])
    ensures chosen.Some? ==> |chosen.value| == 8
    ensures chosen.Some? ==> forall i :: 0 <= i < 8 ==> Negotiated(Some(chosen.value[i]), c.lists[i], s.lists[i])
  {
    hide Negotiated;
    var names: seq<seq<byte>> := [];
    var i := 0;
    while i < 8
      invariant 0 <= i <= 8 && |names| == i
      invariant forall j :: 0 <= j < i ==> Negotiated(Some(names[j]), c.lists[j], s.lists[j])
    {
      var m := MatchList(c.lists[i], s.lists[i]);
      if m.None? { return None; }
      names := names + [m.value];
      i := i + 1;
    }
    forall j | 0 <= j < 8 ensures !Negotiated(None, c.lists[j], s.lists[j]) {
      if Negotiated(None, c.lists[j], s.lists[j]) { OutcomeUnique(Some(names[j]), None, c.lists[j], s.lists[j]); }
    }
    chosen := Some(names);
  }
}
