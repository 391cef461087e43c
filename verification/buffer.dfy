/** The two pending lists of the import buffer (videos and subtitles) and
    the operations that edit them outside a drag gesture: adding files with
    de-duplication by name, and removing the entry whose close button was
    clicked. */
module Buffer {
  import opened Reorder

  /** A pending file: its name is its identity within a list; the file
      system handle behind it is opaque and stands here as a number. */
  datatype Handle = Handle(name: string, file: nat)

  datatype Kind = Videos | Subtitles

  datatype Lists = Lists(videos: seq<Handle>, subtitles: seq<Handle>)
  {
    function Get(kind: Kind): seq<Handle>
    {
      match kind
      case Videos => videos
      case Subtitles => subtitles
    }

    function Put(kind: Kind, s: seq<Handle>): (r: Lists)
      ensures r.Get(kind) == s
      ensures forall k: Kind :: k != kind ==> r.Get(k) == Get(k)
    {
      match kind
      case Videos => this.(videos := s)
      case Subtitles => this.(subtitles := s)
    }
  }

  /** No two entries of `s` share a name. */
  ghost predicate DistinctNames(s: seq<Handle>)
  {
    forall i, j :: 0 <= i < j < |s| ==> s[i].name != s[j].name
  }

  /** Index of the first entry named `name`, or -1 when there is none. */
  function FindIndex(s: seq<Handle>, name: string): (r: int)
    ensures -1 <= r < |s|
    ensures r >= 0 ==> s[r].name == name
  {
    if |s| == 0 then -1
    else if s[0].name == name then 0
    else
      var t := FindIndex(s[1..], name);
      if t == -1 then -1 else t + 1
  }

  /** The search stops at the first match: an entry carrying the name lies
      at or after the index found, so the name is found whenever present. */
  lemma {:induction false} FindIndexFirst(s: seq<Handle>, name: string, k: nat)
    requires k < |s| && s[k].name == name
    ensures 0 <= FindIndex(s, name) <= k
  {
    if s[0].name != name {
      assert s[1..][k - 1] == s[k];
      FindIndexFirst(s[1..], name, k - 1);
    }
  }

  /** True when entry `k` is the first entry of `s` with its name. */
  predicate IsFirst(s: seq<Handle>, k: nat)
    requires k < |s|
  {
    FindIndex(s, s[k].name) == k
  }

  /** The entries among the first `n` of `s` that are the first entry with
      their name: the filter `findIndex(name) === index` run over a prefix. */
  function Survivors(s: seq<Handle>, n: nat): (r: seq<Handle>)
    requires n <= |s|
    ensures |r| <= n
  {
    if n == 0 then []
    else if IsFirst(s, n - 1) then Survivors(s, n - 1) + [s[n - 1]]
    else Survivors(s, n - 1)
  }

  /** Every survivor is the first entry of the input with its name. */
  lemma {:induction false} SurvivorsAreFirst(s: seq<Handle>, n: nat)
    requires n <= |s|
    ensures forall h :: h in Survivors(s, n) ==>
      0 <= FindIndex(s, h.name) < n && s[FindIndex(s, h.name)] == h
  {
    if n > 0 {
      SurvivorsAreFirst(s, n - 1);
    }
  }

  /** Survivors appear in the order of their first entries in the input;
      in particular no two of them share a name. */
  lemma {:induction false} SurvivorsInOrder(s: seq<Handle>, n: nat)
    requires n <= |s|
    ensures forall i, j :: 0 <= i < j < |Survivors(s, n)| ==>
      FindIndex(s, Survivors(s, n)[i].name) < FindIndex(s, Survivors(s, n)[j].name)
  {
    if n > 0 && IsFirst(s, n - 1) {
      SurvivorsInOrder(s, n - 1);
      var p := Survivors(s, n - 1);
      SurvivorsAreFirst(s, n - 1);
      var r := p + [s[n - 1]];
      assert Survivors(s, n) == r;
      forall i, j | 0 <= i < j < |r|
        ensures FindIndex(s, r[i].name) < FindIndex(s, r[j].name)
      {
        assert r[i] == p[i] && p[i] in p;
        if j < |p| {
          assert r[j] == p[j];
        } else {
          assert r[j] == s[n - 1];
        }
      }
    } else if n > 0 {
      SurvivorsInOrder(s, n - 1);
    }
  }

  /** Every name among the first `n` entries is carried by some survivor. */
  lemma {:induction false} SurvivorsComplete(s: seq<Handle>, n: nat)
    requires n <= |s|
    ensures forall k :: 0 <= k < n ==> FindIndex(Survivors(s, n), s[k].name) != -1
  {
    if n > 0 {
      SurvivorsComplete(s, n - 1);
      var p := Survivors(s, n - 1);
      var r := Survivors(s, n);
      assert p <= r;
      forall k | 0 <= k < n
        ensures FindIndex(r, s[k].name) != -1
      {
        var name := s[k].name;
        if k < n - 1 {
          var i := FindIndex(p, name);
          assert r[i] == p[i];
          FindIndexFirst(r, name, i);
        } else if IsFirst(s, n - 1) {
          assert r[|p|] == s[n - 1];
          FindIndexFirst(r, name, |p|);
        } else {
          FindIndexFirst(s, name, n - 1);
          var f := FindIndex(s, name);
          var i := FindIndex(p, s[f].name);
          FindIndexFirst(r, name, i);
        }
      }
    }
  }

  /** De-duplication by name keeping the first occurrence. The result holds
      one entry for every name of `s`, that entry being the first with the
      name, in the order those first entries appear in `s`. */
  function KeepFirst(s: seq<Handle>): (r: seq<Handle>)
    ensures DistinctNames(r)
    ensures forall j :: 0 <= j < |r| ==>
      0 <= FindIndex(s, r[j].name) && r[j] == s[FindIndex(s, r[j].name)]
    ensures forall i, j :: 0 <= i < j < |r| ==>
      FindIndex(s, r[i].name) < FindIndex(s, r[j].name)
    ensures forall k :: 0 <= k < |s| ==> FindIndex(r, s[k].name) != -1
  {
    SurvivorsAreFirstAt(s, |s|);
    SurvivorsInOrder(s, |s|);
    SurvivorsDistinct(s, |s|);
    SurvivorsComplete(s, |s|);
    Survivors(s, |s|)
  }

  /** `SurvivorsAreFirst` by position. */
  lemma SurvivorsAreFirstAt(s: seq<Handle>, n: nat)
    requires n <= |s|
    ensures forall j :: 0 <= j < |Survivors(s, n)| ==>
      0 <= FindIndex(s, Survivors(s, n)[j].name) && Survivors(s, n)[j] == s[FindIndex(s, Survivors(s, n)[j].name)]
  {
    SurvivorsAreFirst(s, n);
    var r := Survivors(s, n);
    assert forall j :: 0 <= j < |r| ==> r[j] in r;
  }

  /** No two survivors share a name. */
  lemma SurvivorsDistinct(s: seq<Handle>, n: nat)
    requires n <= |s|
    ensures DistinctNames(Survivors(s, n))
  {
    SurvivorsInOrder(s, n);
    var r := Survivors(s, n);
    forall i, j | 0 <= i < j < |r|
      ensures r[i].name != r[j].name
    {
      assert FindIndex(s, r[i].name) < FindIndex(s, r[j].name);
    }
  }

  /** A shorter prefix of the input keeps a prefix of the survivors. */
  lemma {:induction false} SurvivorsGrow(s: seq<Handle>, n: nat, m: nat)
    requires n <= m <= |s|
    ensures Survivors(s, n) <= Survivors(s, m)
    decreases m - n
  {
    if n < m {
      SurvivorsGrow(s, n, m - 1);
    }
  }

  /** On a list whose names are already distinct, the first `n` entries all
      survive. */
  lemma {:induction false} SurvivorsOfDistinct(s: seq<Handle>, n: nat)
    requires n <= |s|
    requires DistinctNames(s[..n])
    ensures Survivors(s, n) == s[..n]
  {
    if n > 0 {
      var t := s[..n];
      assert DistinctNames(s[..n - 1]) by {
        assert s[..n - 1] == t[..n - 1];
      }
      SurvivorsOfDistinct(s, n - 1);
      FindIndexFirst(s, s[n - 1].name, n - 1);
      var f := FindIndex(s, s[n - 1].name);
      assert t[f] == s[f] && t[n - 1] == s[n - 1];
      assert IsFirst(s, n - 1);
      assert t == s[..n - 1] + [s[n - 1]];
    }
  }

  /** De-duplication leaves a list with distinct names as it is, so it is
      idempotent. */
  lemma KeepFirstOfDistinct(s: seq<Handle>)
    requires DistinctNames(s)
    ensures KeepFirst(s) == s
  {
    assert s[..|s|] == s;
    SurvivorsOfDistinct(s, |s|);
  }

  /** Appending to a de-duplicated list never replaces or reorders what was
      already there: the old list is a prefix of the new one. */
  lemma KeepFirstKeepsBuffered(buf: seq<Handle>, added: seq<Handle>)
    requires DistinctNames(buf)
    ensures buf <= KeepFirst(buf + added)
  {
    var s := buf + added;
    assert s[..|buf|] == buf;
    SurvivorsOfDistinct(s, |buf|);
    SurvivorsGrow(s, |buf|, |s|);
  }

  /** Re-adding only names that are already buffered changes nothing. */
  lemma KeepFirstReAdd(buf: seq<Handle>, added: seq<Handle>)
    requires DistinctNames(buf)
    requires forall j :: 0 <= j < |added| ==> FindIndex(buf, added[j].name) != -1
    ensures KeepFirst(buf + added) == buf
  {
    KeepFirstIsSurvivors(buf + added);
    SurvivorsReAdd(buf, added);
  }

  lemma SurvivorsReAdd(buf: seq<Handle>, added: seq<Handle>)
    requires DistinctNames(buf)
    requires forall j :: 0 <= j < |added| ==> FindIndex(buf, added[j].name) != -1
    ensures Survivors(buf + added, |buf + added|) == buf
  {
    var s := buf + added;
    calc {
      Survivors(s, |s|);
      { assert |s| == |buf| + |added|; SurvivorsTail(buf, added, |added|); }
      Survivors(s, |buf|);
      { assert s[..|buf|] == buf; SurvivorsOfDistinct(s, |buf|); }
      buf;
    }
  }

  lemma KeepFirstIsSurvivors(s: seq<Handle>)
    ensures KeepFirst(s) == Survivors(s, |s|)
  {
  }

  /** Entries past the buffered prefix whose names the prefix already holds
      never survive. */
  lemma {:induction false} SurvivorsTail(buf: seq<Handle>, added: seq<Handle>, n: nat)
    requires n <= |added|
    requires forall j :: 0 <= j < |added| ==> FindIndex(buf, added[j].name) != -1
    ensures Survivors(buf + added, |buf| + n) == Survivors(buf + added, |buf|)
  {
    if n > 0 {
      SurvivorsTail(buf, added, n - 1);
      var s := buf + added;
      var name := added[n - 1].name;
      var b := FindIndex(buf, name);
      assert s[b] == buf[b];
      FindIndexFirst(s, name, b);
      assert s[|buf| + n - 1] == added[n - 1];
      assert !IsFirst(s, |buf| + n - 1);
    }
  }

  /** `addToBuf`: append new videos and subtitles to their lists, then
      de-duplicate each list by name keeping the first occurrence. */
  function AddToBuf(b: Lists, newVideos: seq<Handle>, newSubtitles: seq<Handle>): (r: Lists)
    ensures DistinctNames(r.videos) && DistinctNames(r.subtitles)
  {
    Lists(KeepFirst(b.videos + newVideos), KeepFirst(b.subtitles + newSubtitles))
  }

  /** Every name in the input is still present after de-duplication. */
  lemma KeepFirstKeepsNames(s: seq<Handle>, h: Handle)
    requires h in s
    ensures FindIndex(KeepFirst(s), h.name) != -1
  {
    var k :| 0 <= k < |s| && s[k] == h;
  }

  /** On a buffer kept by `AddToBuf`, every earlier entry stays where it was
      and every added name ends up in its list. */
  lemma AddToBufKeepsBuffered(b: Lists, newVideos: seq<Handle>, newSubtitles: seq<Handle>)
    requires DistinctNames(b.videos) && DistinctNames(b.subtitles)
    ensures b.videos <= AddToBuf(b, newVideos, newSubtitles).videos
    ensures b.subtitles <= AddToBuf(b, newVideos, newSubtitles).subtitles
    ensures forall h :: h in newVideos ==>
      FindIndex(AddToBuf(b, newVideos, newSubtitles).videos, h.name) != -1
    ensures forall h :: h in newSubtitles ==>
      FindIndex(AddToBuf(b, newVideos, newSubtitles).subtitles, h.name) != -1
  {
    KeepFirstKeepsBuffered(b.videos, newVideos);
    KeepFirstKeepsBuffered(b.subtitles, newSubtitles);
    forall h | h in newVideos
      ensures FindIndex(KeepFirst(b.videos + newVideos), h.name) != -1
    {
      KeepFirstKeepsNames(b.videos + newVideos, h);
    }
    forall h | h in newSubtitles
      ensures FindIndex(KeepFirst(b.subtitles + newSubtitles), h.name) != -1
    {
      KeepFirstKeepsNames(b.subtitles + newSubtitles, h);
    }
  }

  /** The close button: drop the entries named `name`, keep the rest. */
  function RemoveByName(s: seq<Handle>, name: string): (r: seq<Handle>)
    ensures |r| <= |s|
  {
    if |s| == 0 then []
    else if s[0].name == name then RemoveByName(s[1..], name)
    else [s[0]] + RemoveByName(s[1..], name)
  }

  /** Exactly the entries with another name remain. */
  lemma {:induction false} RemoveByNameMembers(s: seq<Handle>, name: string)
    ensures forall h :: h in RemoveByName(s, name) <==> h in s && h.name != name
  {
    if |s| > 0 {
      RemoveByNameMembers(s[1..], name);
      assert s == [s[0]] + s[1..];
    }
  }

  /** Removal works entry by entry, so the survivors keep their order. */
  lemma {:induction false} RemoveByNameAppend(s: seq<Handle>, t: seq<Handle>, name: string)
    ensures RemoveByName(s + t, name) == RemoveByName(s, name) + RemoveByName(t, name)
  {
    if |s| > 0 {
      assert (s + t)[1..] == s[1..] + t;
      RemoveByNameAppend(s[1..], t, name);
    } else {
      assert s + t == t;
    }
  }

  /** A name that no entry carries leaves the list unchanged. */
  lemma {:induction false} RemoveByNameAbsent(s: seq<Handle>, name: string)
    requires FindIndex(s, name) == -1
    ensures RemoveByName(s, name) == s
  {
    if |s| > 0 {
      RemoveByNameAbsent(s[1..], name);
      assert s == [s[0]] + s[1..];
    }
  }

  /** Taking one entry out of a list with distinct names keeps them distinct. */
  lemma WithoutKeepsDistinct(s: seq<Handle>, k: nat)
    requires k < |s| && DistinctNames(s)
    ensures DistinctNames(Without(s, k))
  {
    var r := Without(s, k);
    forall i, j | 0 <= i < j < |r| ensures r[i].name != r[j].name {
      var i' := if i < k then i else i + 1;
      var j' := if j < k then j else j + 1;
      assert r[i] == s[i'] && r[j] == s[j'];
    }
  }

  /** In a list with distinct names, no entry but row `k` carries its name. */
  lemma OnlyRowHasName(s: seq<Handle>, k: nat)
    requires k < |s| && DistinctNames(s)
    ensures FindIndex(s[..k], s[k].name) == -1
    ensures FindIndex(s[k + 1..], s[k].name) == -1
  {
  }

  /** Removing an entry's name when no other entry carries it removes
      exactly that entry. */
  lemma RemoveOnlyEntry(before: seq<Handle>, h: Handle, after: seq<Handle>)
    requires FindIndex(before, h.name) == -1 && FindIndex(after, h.name) == -1
    ensures RemoveByName(before + [h] + after, h.name) == before + after
  {
    var tail := [h] + after;
    assert tail[1..] == after;
    calc {
      RemoveByName(before + [h] + after, h.name);
      { assert before + [h] + after == before + tail; }
      RemoveByName(before + tail, h.name);
      { RemoveByNameAppend(before, tail, h.name); }
      RemoveByName(before, h.name) + RemoveByName(tail, h.name);
      { RemoveByNameAbsent(before, h.name); }
      before + RemoveByName(tail, h.name);
      before + RemoveByName(after, h.name);
      { RemoveByNameAbsent(after, h.name); }
      before + after;
    }
  }

  /** In a list with distinct names, closing row `k` removes exactly that
      row, and the names stay distinct. */
  lemma RemoveByNameOfDistinct(s: seq<Handle>, k: nat)
    requires k < |s| && DistinctNames(s)
    ensures RemoveByName(s, s[k].name) == Without(s, k)
    ensures DistinctNames(RemoveByName(s, s[k].name))
  {
    var before, after := s[..k], s[k + 1..];
    calc {
      RemoveByName(s, s[k].name);
      { assert s == before + [s[k]] + after; }
      RemoveByName(before + [s[k]] + after, s[k].name);
      { OnlyRowHasName(s, k); RemoveOnlyEntry(before, s[k], after); }
      before + after;
    }
    WithoutKeepsDistinct(s, k);
  }

  /** A committed drag or an arrow swap only permutes a list, so its names
      stay distinct. */
  lemma MoveToKeepsDistinct(s: seq<Handle>, from: nat, to: nat)
    requires from < |s| && to < |s| && DistinctNames(s)
    ensures DistinctNames(MoveTo(s, from, to))
  {
    var r := MoveTo(s, from, to);
    forall a, b | 0 <= a < b < |r| ensures r[a].name != r[b].name {
      MoveToAt(s, from, to, a);
      MoveToAt(s, from, to, b);
    }
  }

  /** Both lists have pairwise distinct names, as the buffer keeps them. */
  ghost predicate ListsDistinct(b: Lists)
  {
    DistinctNames(b.videos) && DistinctNames(b.subtitles)
  }

  /** Dropping entries never makes two names clash. */
  lemma {:induction false} RemoveByNameKeepsDistinct(s: seq<Handle>, name: string)
    requires DistinctNames(s)
    ensures DistinctNames(RemoveByName(s, name))
  {
    if |s| > 0 {
      var rest := RemoveByName(s[1..], name);
      RemoveByNameKeepsDistinct(s[1..], name);
      if s[0].name != name {
        RemoveByNameMembers(s[1..], name);
        var r := [s[0]] + rest;
        forall i, j | 0 <= i < j < |r| ensures r[i].name != r[j].name {
          if i == 0 {
            assert r[j] in s[1..];
          }
        }
      }
    }
  }

  /** The close button of one list: only that list changes. */
  function Close(b: Lists, kind: Kind, name: string): (r: Lists)
    ensures forall h :: h in r.Get(kind) <==> h in b.Get(kind) && h.name != name
    ensures forall k: Kind :: k != kind ==> r.Get(k) == b.Get(k)
  {
    RemoveByNameMembers(b.Get(kind), name);
    b.Put(kind, RemoveByName(b.Get(kind), name))
  }

  /** A close keeps the names of both lists distinct. */
  lemma CloseKeepsDistinct(b: Lists, kind: Kind, name: string)
    requires ListsDistinct(b)
    ensures ListsDistinct(Close(b, kind, name))
  {
    RemoveByNameKeepsDistinct(b.Get(kind), name);
  }
}
