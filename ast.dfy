/**
 * The part of a compiled module that the plugin sees: its top-level statements,
 * the import specifiers it inspects, and the two kinds of declaration it emits.
 */
module Ast {

  /** The fatal errors of a compilation. */
  datatype PluginError =
    | MissingFilename                        // the compiled file's name is not known
    | LoaderFailed(messagesFilePath: string) // the loader threw for this messages file

  /** One locale's messages. */
  type KeyValueObject = map<string, string>

  /** Messages of every locale, keyed by lower-case locale. */
  type KeyValueObjectCollection = map<string, KeyValueObject>

  /** The record embedded in a compiled file; `isInjected` is always true when the plugin makes it. */
  datatype InjectedMessages = InjectedMessages(
    isInjected: bool,
    sourceFilePath: string,
    keyValueObjectCollection: KeyValueObjectCollection)

  /** The imported name of a specifier: `{ a as b }` or `{ "a-b" as b }`. */
  datatype ModuleExportName = Identifier(name: string) | StringLiteral(value: string)

  datatype ImportSpecifier =
    | Named(imported: ModuleExportName, local: string)   // import { imported as local } from '…'
    | Default(local: string)                             // import local from '…'
    | Namespace(local: string)                           // import * as local from '…'

  datatype ExportSpecifier = ExportSpecifier(exportedLocal: ModuleExportName, exported: ModuleExportName)

  /**
   * A top-level statement. `Import`, `ExportFrom` and `Other` are what a source
   * module contains (for `Other`, the identifiers it mentions, one entry per
   * occurrence); `BindDecl` (`const name = fn.bind(context);`) and `MessagesDecl`
   * (`const name = <data>;`) are what the plugin emits.
   */
  datatype Stmt =
    | Import(source: string, specifiers: seq<ImportSpecifier>)
    | ExportFrom(source: string, exportSpecifiers: seq<ExportSpecifier>)
    | Other(idents: seq<string>)
    | BindDecl(name: string, fn: string, context: string)
    | MessagesDecl(name: string, data: InjectedMessages)

  predicate IsGenerated(s: Stmt)
  {
    s.BindDecl? || s.MessagesDecl?
  }

  /** Every occurrence of `from` becomes `to`. */
  function RenameIdents(ids: seq<string>, from: string, to: string): seq<string>
  {
    seq(|ids|, i requires 0 <= i < |ids| => if ids[i] == from then to else ids[i])
  }

  /** Renaming a binding touches only the references, which live in `Other` statements. */
  function RenameStmt(s: Stmt, from: string, to: string): Stmt
  {
    if s.Other? then Other(RenameIdents(s.idents, from, to)) else s
  }

  function RenameRefs(body: seq<Stmt>, from: string, to: string): seq<Stmt>
  {
    seq(|body|, i requires 0 <= i < |body| => RenameStmt(body[i], from, to))
  }

  /** The names a statement declares or mentions; all of them are taken in the module scope. */
  function StmtNames(s: Stmt): set<string>
  {
    match s
    case Import(_, specs) => set i | 0 <= i < |specs| :: specs[i].local
    case ExportFrom(_, _) => {}
    case Other(ids) => set i | 0 <= i < |ids| :: ids[i]
    case BindDecl(name, fn, context) => {name, fn, context}
    case MessagesDecl(name, _) => {name}
  }

  function NamesIn(body: seq<Stmt>): set<string>
  {
    set i, x | 0 <= i < |body| && x in StmtNames(body[i]) :: x
  }

  predicate NamesWithin(body: seq<Stmt>, used: set<string>)
  {
    forall i :: 0 <= i < |body| ==> StmtNames(body[i]) <= used
  }

  lemma NamesInWithin(body: seq<Stmt>)
    ensures NamesWithin(body, NamesIn(body))
  {
    forall i, x | 0 <= i < |body| && x in StmtNames(body[i]) ensures x in NamesIn(body) {
    }
  }

  /** Number of occurrences of `x` in `ids`. */
  function Count(ids: seq<string>, x: string): nat
  {
    if ids == [] then 0 else (if ids[0] == x then 1 else 0) + Count(ids[1..], x)
  }

  /** Number of references to `x` in the module: its occurrences in `Other` statements. */
  function RefCount(body: seq<Stmt>, x: string): nat
  {
    if body == [] then 0
    else (if body[0].Other? then Count(body[0].idents, x) else 0) + RefCount(body[1..], x)
  }

  lemma {:induction false} CountAbsent(ids: seq<string>, x: string)
    requires forall i :: 0 <= i < |ids| ==> ids[i] != x
    ensures Count(ids, x) == 0
  {
    if ids != [] {
      CountAbsent(ids[1..], x);
    }
  }

  lemma {:induction false} CountRenamed(ids: seq<string>, from: string, to: string, y: string)
    requires from != to
    ensures Count(RenameIdents(ids, from, to), from) == 0
    ensures Count(RenameIdents(ids, from, to), to) == Count(ids, to) + Count(ids, from)
    ensures y != from && y != to ==> Count(RenameIdents(ids, from, to), y) == Count(ids, y)
  {
    if ids != [] {
      CountRenamed(ids[1..], from, to, y);
      assert RenameIdents(ids, from, to)[1..] == RenameIdents(ids[1..], from, to);
    }
  }

  /**
   * Renaming `from` to a name with no references moves every reference of `from`
   * to `to` and touches no other name.
   */
  lemma {:induction false} RenameMovesReferences(body: seq<Stmt>, from: string, to: string, y: string)
    requires from != to
    ensures RefCount(RenameRefs(body, from, to), from) == 0
    ensures RefCount(RenameRefs(body, from, to), to) == RefCount(body, to) + RefCount(body, from)
    ensures y != from && y != to ==> RefCount(RenameRefs(body, from, to), y) == RefCount(body, y)
  {
    if body != [] {
      RenameMovesReferences(body[1..], from, to, y);
      assert RenameRefs(body, from, to)[1..] == RenameRefs(body[1..], from, to);
      if body[0].Other? {
        CountRenamed(body[0].idents, from, to, y);
      }
    }
  }

  /** A name that is not taken has no references. */
  lemma {:induction false} UnusedNameHasNoReferences(body: seq<Stmt>, used: set<string>, x: string)
    requires NamesWithin(body, used)
    requires x !in used
    ensures RefCount(body, x) == 0
  {
    if body != [] {
      assert NamesWithin(body[1..], used) by {
        forall i | 0 <= i < |body[1..]| ensures StmtNames(body[1..][i]) <= used {
          assert body[1..][i] == body[i + 1];
        }
      }
      UnusedNameHasNoReferences(body[1..], used, x);
      if body[0].Other? {
        var ids := body[0].idents;
        forall i | 0 <= i < |ids| ensures ids[i] != x {
          assert ids[i] in StmtNames(body[0]);
        }
        CountAbsent(ids, x);
      }
    }
  }

  /** A statement without references to a name keeps no occurrence of it. */
  lemma RenameKeepsNamesWithin(body: seq<Stmt>, used: set<string>, from: string, to: string)
    requires NamesWithin(body, used)
    requires to in used
    ensures NamesWithin(RenameRefs(body, from, to), used)
  {
    forall i | 0 <= i < |body| ensures StmtNames(RenameRefs(body, from, to)[i]) <= used {
      var s := body[i];
      if s.Other? {
        var ids := RenameIdents(s.idents, from, to);
        forall x | x in StmtNames(Other(ids)) ensures x in used {
          var j :| 0 <= j < |ids| && ids[j] == x;
          assert s.idents[j] in StmtNames(s);
        }
      }
    }
  }

  /** `body` with `s` inserted at index `i`. */
  function InsertAt(body: seq<Stmt>, i: nat, s: Stmt): (r: seq<Stmt>)
    requires i <= |body|
    ensures |r| == |body| + 1 && r[i] == s
    ensures forall j :: 0 <= j < i ==> r[j] == body[j]
    ensures forall j :: i < j < |r| ==> r[j] == body[j - 1]
  {
    seq(|body| + 1, j requires 0 <= j <= |body| => if j < i then body[j] else if j == i then s else body[j - 1])
  }

  /** The statements that did not come from the plugin, in order. */
  function Source(body: seq<Stmt>): seq<Stmt>
  {
    if body == [] then []
    else (if IsGenerated(body[0]) then [] else [body[0]]) + Source(body[1..])
  }

  lemma {:induction false} SourceConcat(a: seq<Stmt>, b: seq<Stmt>)
    ensures Source(a + b) == Source(a) + Source(b)
  {
    if a == [] {
      assert a + b == b;
    } else {
      assert (a + b)[0] == a[0];
      assert (a + b)[1..] == a[1..] + b;
      SourceConcat(a[1..], b);
    }
  }

  /** Number of `MessagesDecl` statements. */
  function MessagesDeclCount(body: seq<Stmt>): nat
  {
    if body == [] then 0 else (if body[0].MessagesDecl? then 1 else 0) + MessagesDeclCount(body[1..])
  }
}
