/** The task list as a value: a task record, the edit mapped over the list and the delete
    that filters a task out, with the id facts the screen's prepend needs. */
module TaskStore {

  /** One agenda entry: `{id, titulo, descricao, hora}`. */
  datatype Task = Task(id: string, titulo: string, descricao: string, hora: string)

  /** The ids of the list, in list order. */
  function Ids(s: seq<Task>): seq<string> {
    seq(|s|, i requires 0 <= i < |s| => s[i].id)
  }

  /** No two entries of the list share an id. */
  predicate UniqueIds(s: seq<Task>) {
    forall i, j :: 0 <= i < j < |s| ==> s[i].id != s[j].id
  }

  /** The object spread `{ ...item, titulo, descricao, hora }`: the same id, the new
      text fields. */
  function Revised(item: Task, titulo: string, descricao: string, hora: string): (r: Task)
    ensures r.id == item.id
  {
    item.(titulo := titulo, descricao := descricao, hora := hora)
  }

  /** The edit, `prev.map(item => item.id === id ? {...} : item)`: the list keeps its
      length, its order and its ids; the entries with the edited id take the new title,
      description and time, and every other entry stays as it was. */
  function Edited(s: seq<Task>, id: string, titulo: string, descricao: string, hora: string): (r: seq<Task>)
    ensures |r| == |s| && Ids(r) == Ids(s)
    ensures forall i :: 0 <= i < |s| && s[i].id != id ==> r[i] == s[i]
    ensures forall i :: 0 <= i < |s| && s[i].id == id ==>
      r[i].titulo == titulo && r[i].descricao == descricao && r[i].hora == hora
  {
    seq(|s|, i requires 0 <= i < |s| =>
      if s[i].id == id then Revised(s[i], titulo, descricao, hora) else s[i])
  }

  /** Editing an id that no entry carries leaves the list as it was. */
  lemma EditedAbsent(s: seq<Task>, id: string, titulo: string, descricao: string, hora: string)
    requires id !in Ids(s)
    ensures Edited(s, id, titulo, descricao, hora) == s
  {
    var r := Edited(s, id, titulo, descricao, hora);
    forall i | 0 <= i < |s| ensures r[i] == s[i] {
      assert Ids(s)[i] == s[i].id;
    }
  }

  /** With unique ids, editing the entry at position k replaces that one entry and
      nothing else. */
  lemma EditedOne(s: seq<Task>, k: int, titulo: string, descricao: string, hora: string)
    requires UniqueIds(s) && 0 <= k < |s|
    ensures Edited(s, s[k].id, titulo, descricao, hora) == s[k := Revised(s[k], titulo, descricao, hora)]
  {
  }

  /** Submitting the same edit twice has the effect of submitting it once. */
  lemma EditedIdempotent(s: seq<Task>, id: string, titulo: string, descricao: string, hora: string)
    ensures Edited(Edited(s, id, titulo, descricao, hora), id, titulo, descricao, hora)
         == Edited(s, id, titulo, descricao, hora)
  {
  }

  /** An edit keeps the ids unique. */
  lemma EditedUnique(s: seq<Task>, id: string, titulo: string, descricao: string, hora: string)
    requires UniqueIds(s)
    ensures UniqueIds(Edited(s, id, titulo, descricao, hora))
  {
    var r := Edited(s, id, titulo, descricao, hora);
    forall i, j | 0 <= i < j < |r| ensures r[i].id != r[j].id {
      assert Ids(r)[i] == Ids(s)[i] && Ids(r)[j] == Ids(s)[j];
    }
  }

  /** Prepending a task whose id is new keeps the ids unique. */
  lemma PrependedUnique(s: seq<Task>, t: Task)
    requires UniqueIds(s) && t.id !in Ids(s)
    ensures UniqueIds([t] + s)
  {
    forall i, j | 0 <= i < j < |s| + 1 ensures ([t] + s)[i].id != ([t] + s)[j].id {
      if i == 0 {
        assert Ids(s)[j - 1] == s[j - 1].id;
      }
    }
  }

  /** The delete, `prev.filter(item => item.id !== id)`: the entries that do not carry
      the id, in their original order. */
  function Removed(s: seq<Task>, id: string): (r: seq<Task>)
    ensures |r| <= |s|
  {
    if s == [] then []
    else (if s[0].id == id then [] else [s[0]]) + Removed(s[1..], id)
  }

  /** An entry survives the delete exactly when it was in the list and does not carry
      the deleted id. */
  lemma {:induction false} RemovedMember(s: seq<Task>, id: string, t: Task)
    ensures t in Removed(s, id) <==> t in s && t.id != id
  {
    if s != [] {
      RemovedMember(s[1..], id, t);
      assert s == [s[0]] + s[1..];
    }
  }

  /** The filter works piece by piece: removing from a concatenation removes from each
      part and keeps the parts in order, so the kept entries keep their relative order. */
  lemma {:induction false} RemovedConcat(a: seq<Task>, b: seq<Task>, id: string)
    ensures Removed(a + b, id) == Removed(a, id) + Removed(b, id)
  {
    if a != [] {
      RemovedConcat(a[1..], b, id);
      assert (a + b)[1..] == a[1..] + b;
    } else {
      assert a + b == b;
    }
  }

  /** Deleting an id that no entry carries leaves the list unchanged. */
  lemma {:induction false} RemovedAbsent(s: seq<Task>, id: string)
    requires id !in Ids(s)
    ensures Removed(s, id) == s
  {
    if s != [] {
      assert Ids(s)[0] == s[0].id;
      assert id !in Ids(s[1..]) by {
        forall i | 0 <= i < |s| - 1 ensures Ids(s[1..])[i] != id {
          assert Ids(s)[i + 1] == s[i + 1].id;
        }
      }
      RemovedAbsent(s[1..], id);
      assert [s[0]] + s[1..] == s;
    }
  }

  /** Deleting twice is the same as deleting once. */
  lemma RemovedIdempotent(s: seq<Task>, id: string)
    ensures Removed(Removed(s, id), id) == Removed(s, id)
  {
    var r := Removed(s, id);
    assert id !in Ids(r) by {
      forall i | 0 <= i < |r| ensures Ids(r)[i] != id {
        RemovedMember(s, id, r[i]);
      }
    }
    RemovedAbsent(r, id);
  }

  /** With unique ids, deleting the id of the entry at position k removes that entry
      and only it: the list loses exactly one element and the rest keep their order. */
  lemma RemovedOne(s: seq<Task>, k: int)
    requires UniqueIds(s) && 0 <= k < |s|
    ensures Removed(s, s[k].id) == s[..k] + s[k + 1..]
    ensures |Removed(s, s[k].id)| == |s| - 1
  {
    var id := s[k].id;
    assert s == s[..k] + ([s[k]] + s[k + 1..]);
    RemovedConcat(s[..k], [s[k]] + s[k + 1..], id);
    RemovedConcat([s[k]], s[k + 1..], id);
    assert Removed([s[k]], id) == [] by {
      assert [s[k]][1..] == [];
    }
    assert id !in Ids(s[..k]) by {
      forall i | 0 <= i < k ensures Ids(s[..k])[i] != id {
        assert s[..k][i] == s[i];
      }
    }
    var tail := s[k + 1..];
    assert id !in Ids(tail) by {
      forall i | 0 <= i < |tail| ensures Ids(tail)[i] != id {
        assert tail[i] == s[k + 1 + i];
      }
    }
    RemovedAbsent(s[..k], id);
    RemovedAbsent(s[k + 1..], id);
  }

  /** A delete keeps the ids unique. */
  lemma {:induction false} RemovedUnique(s: seq<Task>, id: string)
    requires UniqueIds(s)
    ensures UniqueIds(Removed(s, id))
  {
    if s != [] {
      RemovedUnique(s[1..], id);
      var rest := Removed(s[1..], id);
      if s[0].id != id {
        var r := [s[0]] + rest;
        forall i, j | 0 <= i < j < |r| ensures r[i].id != r[j].id {
          if i == 0 {
            assert r[j] in rest;
            RemovedMember(s[1..], id, r[j]);
            assert r[j] in s[1..];
            var j' :| 0 <= j' < |s[1..]| && s[1..][j'] == r[j];
            assert s[j' + 1] == r[j];
          }
        }
      }
    }
  }
}
