/**
 * The program node path and its scope, as far as the plugin uses them: the
 * module's top-level statements, the names taken in the module scope, the names
 * that have a binding, and the operations the plugin calls (`generateUid`,
 * renaming a binding's references, `insertAfter` on a statement, and `unshift`
 * on the body).
 */
module Scope {
  import opened Ast
  import opened FreshNames
  import opened Rewrite

  class ProgramPath {
    /** The module's top-level statements. */
    var body: seq<Stmt>
    /** Every name taken in the module scope: declared, referenced, or handed out as a uid. */
    var used: set<string>
    /** The names declared in the module scope (`scope.getBinding(name)` finds them). */
    const bindings: set<string>
    /** The renames done so far, a record for the proofs. */
    ghost var renames: seq<RenameRecord>

    /** The names the scope holds are the taken names. */
    ghost predicate Valid()
      reads this
    {
      NamesWithin(body, used) && bindings <= used
    }

    /** A freshly crawled program: its names and bindings are taken, nothing is renamed yet. */
    constructor (body: seq<Stmt>, bindings: set<string>)
      ensures this.body == body && this.bindings == bindings
      ensures used == NamesIn(body) + bindings && renames == []
      ensures Valid()
    {
      this.body := body;
      this.bindings := bindings;
      used := NamesIn(body) + bindings;
      renames := [];
      new;
      NamesInWithin(body);
    }

    /**
     * `scope.generateUid(seed)`: tries `_seed`, `_seed2`, `_seed3`, ... until a name
     * that is not taken, and reserves it.
     */
    method GenerateUid(seed: string) returns (name: string)
      modifies this
      ensures name == FreshName(old(used), seed) && name !in old(used)
      ensures used == old(used) + {name}
      ensures body == old(body) && renames == old(renames)
      ensures old(Valid()) ==> Valid()
    {
      var taken := used;
      var i := 1;
      name := Candidate(seed, i);
      while name in taken
        invariant i >= 1 && name == Candidate(seed, i)
        invariant forall j :: 1 <= j < i ==> Candidate(seed, j) in taken
        invariant used == taken && body == old(body) && renames == old(renames)
        decreases Pow10(MaxLen(taken)) - i
      {
        TakenCandidateIsSmall(taken, seed, i);
        ghost var tried := name;
        i := i + 1;
        assert forall j :: 1 <= j < i ==> Candidate(seed, j) in taken by {
          forall j | 1 <= j < i
            ensures Candidate(seed, j) in taken
          {
            if j == i - 1 {
              assert Candidate(seed, j) == tried;
            }
          }
        }
        name := Candidate(seed, i);
      }
      FirstFreeIndex(taken, seed, 1, i);
      used := taken + {name};
    }

    /** Every reference to `from` is renamed to `to`; the declarations stay as they are. */
    method RenameReferences(from: string, to: string)
      modifies this
      ensures body == RenameRefs(old(body), from, to) && |body| == |old(body)|
      ensures renames == old(renames) + [RenameRecord(from, to)]
      ensures used == old(used)
      ensures old(Valid()) && to in used ==> Valid()
    {
      var renamed: seq<Stmt> := [];
      var i := 0;
      while i < |body|
        invariant 0 <= i <= |body|
        invariant renamed == RenameRefs(body[..i], from, to)
      {
        assert body[..i + 1] == body[..i] + [body[i]];
        renamed := renamed + [RenameStmt(body[i], from, to)];
        i := i + 1;
      }
      assert body[..i] == body;
      if Valid() && to in used {
        RenameKeepsNamesWithin(body, used, from, to);
      }
      body := renamed;
      renames := renames + [RenameRecord(from, to)];
    }

    /** `insertAfter` on the statement at `pos`: `s` becomes the statement at `pos + 1`. */
    method InsertAfter(pos: nat, s: Stmt)
      requires pos < |body|
      modifies this
      ensures body == InsertAt(old(body), pos + 1, s)
      ensures used == old(used) && renames == old(renames)
      ensures old(Valid()) && StmtNames(s) <= used ==> Valid()
    {
      body := InsertAt(body, pos + 1, s);
    }

    /** `body.unshift(s)`: `s` becomes the first statement. */
    method Unshift(s: Stmt)
      modifies this
      ensures body == [s] + old(body)
      ensures used == old(used) && renames == old(renames)
      ensures old(Valid()) && StmtNames(s) <= used ==> Valid()
    {
      body := [s] + body;
    }
  }
}
