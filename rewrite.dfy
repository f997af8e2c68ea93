/**
 * The rewrite of one module as values: the named-import hijack, the driver's
 * single pass over the original statements, and the final injection. The
 * imperative model in `Plugin` is proved to compute exactly these functions.
 */
module Rewrite {
  import opened Wrappers
  import opened Ast
  import opened Matcher
  import opened FreshNames

  /** A binding rename done by a hijack: every reference of `from` now reads `to`. */
  datatype RenameRecord = RenameRecord(from: string, to: string)

  /**
   * What a hijack changes: the statements, the names taken in the module scope,
   * the number of times the messages variable was requested, and (for the proofs)
   * the renames done so far.
   */
  datatype RewriteState = RewriteState(body: seq<Stmt>, used: set<string>, requests: nat, renames: seq<RenameRecord>)

  /** What the driver needs besides the state: the targets, the names with a binding, the messages variable. */
  datatype Env = Env(targets: seq<HijackTarget>, bindings: set<string>, messagesVar: string)

  // ---------------------------------------------------------------- renames

  /** A statement after the renames of `log`, applied in order. */
  function RenameStmtLog(s: Stmt, log: seq<RenameRecord>): Stmt
  {
    if log == [] then s
    else RenameStmt(RenameStmtLog(s, log[..|log| - 1]), log[|log| - 1].from, log[|log| - 1].to)
  }

  function RenameLog(body: seq<Stmt>, log: seq<RenameRecord>): seq<Stmt>
  {
    seq(|body|, i requires 0 <= i < |body| => RenameStmtLog(body[i], log))
  }

  /** Renames touch nothing but `Other` statements, and keep those `Other`. */
  lemma {:induction false} RenameStmtLogKind(s: Stmt, log: seq<RenameRecord>)
    ensures !s.Other? ==> RenameStmtLog(s, log) == s
    ensures s.Other? ==> RenameStmtLog(s, log).Other? && |RenameStmtLog(s, log).idents| == |s.idents|
  {
    if log != [] {
      RenameStmtLogKind(s, log[..|log| - 1]);
    }
  }

  lemma RenameLogEmpty(body: seq<Stmt>)
    ensures RenameLog(body, []) == body
  {
  }

  lemma RenameLogConcat(a: seq<Stmt>, b: seq<Stmt>, log: seq<RenameRecord>)
    ensures RenameLog(a + b, log) == RenameLog(a, log) + RenameLog(b, log)
  {
    assert forall i :: 0 <= i < |a + b| ==> RenameLog(a + b, log)[i] == (RenameLog(a, log) + RenameLog(b, log))[i];
  }

  lemma RenameLogSlices(body: seq<Stmt>, log: seq<RenameRecord>, i: nat)
    requires i <= |body|
    ensures RenameLog(body, log)[..i] == RenameLog(body[..i], log)
    ensures RenameLog(body, log)[i..] == RenameLog(body[i..], log)
  {
  }

  /** One more rename on top of a log is that rename appended to the log. */
  lemma RenameRefsExtendsLog(body: seq<Stmt>, log: seq<RenameRecord>, rec: RenameRecord)
    ensures RenameRefs(RenameLog(body, log), rec.from, rec.to) == RenameLog(body, log + [rec])
  {
    var log' := log + [rec];
    assert log'[..|log'| - 1] == log;
    assert forall i :: 0 <= i < |body| ==>
      RenameRefs(RenameLog(body, log), rec.from, rec.to)[i] == RenameLog(body, log')[i];
  }

  lemma RenameRefsConcat(a: seq<Stmt>, b: seq<Stmt>, from: string, to: string)
    ensures RenameRefs(a + b, from, to) == RenameRefs(a, from, to) + RenameRefs(b, from, to)
  {
    assert forall i :: 0 <= i < |a + b| ==>
      RenameRefs(a + b, from, to)[i] == (RenameRefs(a, from, to) + RenameRefs(b, from, to))[i];
  }

  /** The declarations the hijacks of `log` insert after one import, the newest first. */
  function BindDecls(log: seq<RenameRecord>, messagesVar: string): (r: seq<Stmt>)
    ensures |r| == |log|
  {
    seq(|log|, i requires 0 <= i < |log| => BindDecl(log[|log| - 1 - i].to, log[|log| - 1 - i].from, messagesVar))
  }

  lemma BindDeclsUnrenamed(log: seq<RenameRecord>, messagesVar: string, from: string, to: string)
    ensures RenameRefs(BindDecls(log, messagesVar), from, to) == BindDecls(log, messagesVar)
  {
    var d := BindDecls(log, messagesVar);
    forall i | 0 <= i < |d| ensures d[i].BindDecl? {
      BindDeclAt(log, messagesVar, i);
    }
  }

  /** The `i`-th inserted declaration belongs to the `i`-th newest rename. */
  lemma BindDeclAt(log: seq<RenameRecord>, messagesVar: string, i: nat)
    requires i < |log|
    ensures BindDecls(log, messagesVar)[i]
         == BindDecl(log[|log| - 1 - i].to, log[|log| - 1 - i].from, messagesVar)
  {
  }

  // ---------------------------------------------------------------- one import

  /**
   * One iteration of `hijackNamedImport`'s loop for the import at index `pos`:
   * a matching specifier always consumes a fresh name; when its local name has a
   * binding, its references are renamed to that name and
   * `const <fresh> = <local>.bind(<messages variable>)` is inserted right after
   * the import.
   */
  function HijackSpecifier(st: RewriteState, pos: nat, spec: ImportSpecifier, target: HijackTarget, env: Env)
    : (r: RewriteState)
    requires pos < |st.body|
    ensures |r.body| >= |st.body| && |r.renames| >= |st.renames|
  {
    if !IsMatchingModuleImportName(spec, target) then st
    else
      var hijackedFunction := FreshName(st.used, target.functionName + "Function");
      var used := st.used + {hijackedFunction};
      if spec.local !in env.bindings then st.(used := used)
      else
        RewriteState(
          InsertAt(RenameRefs(st.body, spec.local, hijackedFunction), pos + 1,
                   BindDecl(hijackedFunction, spec.local, env.messagesVar)),
          used,
          st.requests + 1,
          st.renames + [RenameRecord(spec.local, hijackedFunction)])
  }

  /** `hijackNamedImport` over the first `|specs|` specifiers. */
  function HijackSpecifiers(st: RewriteState, pos: nat, specs: seq<ImportSpecifier>, target: HijackTarget, env: Env)
    : (r: RewriteState)
    requires pos < |st.body|
    ensures |r.body| >= |st.body| && |r.renames| >= |st.renames|
  {
    if specs == [] then st
    else
      HijackSpecifier(HijackSpecifiers(st, pos, specs[..|specs| - 1], target, env), pos, specs[|specs| - 1], target, env)
  }

  /** The local names of the specifiers that get hijacked, in order: matching, and with a binding. */
  function HijackedSpecLocals(specs: seq<ImportSpecifier>, target: HijackTarget, bindings: set<string>): seq<string>
  {
    if specs == [] then []
    else
      var last := specs[|specs| - 1];
      HijackedSpecLocals(specs[..|specs| - 1], target, bindings)
        + (if IsMatchingModuleImportName(last, target) && last.local in bindings then [last.local] else [])
  }

  function Froms(log: seq<RenameRecord>): seq<string>
  {
    seq(|log|, i requires 0 <= i < |log| => log[i].from)
  }

  lemma FromsAppend(log: seq<RenameRecord>, rec: RenameRecord)
    ensures Froms(log + [rec]) == Froms(log) + [rec.from]
  {
  }

  /** Renaming then inserting one more declaration keeps the layout of `HijackSpecifiersLayout`. */
  lemma InsertKeepsLayout(before: seq<Stmt>, after: seq<Stmt>, added: seq<RenameRecord>, rec: RenameRecord,
                          messagesVar: string)
    ensures var body := RenameLog(before, added) + BindDecls(added, messagesVar) + RenameLog(after, added);
      var added' := added + [rec];
      InsertAt(RenameRefs(body, rec.from, rec.to), |before|, BindDecl(rec.to, rec.from, messagesVar))
        == RenameLog(before, added') + BindDecls(added', messagesVar) + RenameLog(after, added')
  {
    var added' := added + [rec];
    var d := BindDecls(added, messagesVar);
    var p' := RenameLog(before, added');
    var s' := RenameLog(after, added');
    RenamedLayout(before, after, added, rec, messagesVar);
    assert added'[..|added'| - 1] == added;
    assert BindDecls(added', messagesVar) == [BindDecl(rec.to, rec.from, messagesVar)] + d;
    InsertAfterPrefix(p', d, s', BindDecl(rec.to, rec.from, messagesVar));
  }

  /** One more rename applies to every statement and leaves the declarations alone. */
  lemma RenamedLayout(before: seq<Stmt>, after: seq<Stmt>, added: seq<RenameRecord>, rec: RenameRecord,
                      messagesVar: string)
    ensures var d := BindDecls(added, messagesVar);
      RenameRefs(RenameLog(before, added) + d + RenameLog(after, added), rec.from, rec.to)
        == RenameLog(before, added + [rec]) + d + RenameLog(after, added + [rec])
  {
    var p := RenameLog(before, added);
    var d := BindDecls(added, messagesVar);
    var s := RenameLog(after, added);
    RenameRefsConcat(p + d, s, rec.from, rec.to);
    RenameRefsConcat(p, d, rec.from, rec.to);
    RenameRefsExtendsLog(before, added, rec);
    RenameRefsExtendsLog(after, added, rec);
    BindDeclsUnrenamed(added, messagesVar, rec.from, rec.to);
  }

  /** Inserting right after a prefix puts the new statement between the prefix and the rest. */
  lemma InsertAfterPrefix(p: seq<Stmt>, d: seq<Stmt>, s: seq<Stmt>, x: Stmt)
    ensures InsertAt(p + d + s, |p|, x) == p + ([x] + d) + s
  {
    var r := InsertAt(p + d + s, |p|, x);
    assert forall j :: 0 <= j < |r| ==> r[j] == (p + ([x] + d) + s)[j];
  }

  /**
   * Hijacking one import logs one rename and one messages-variable request per
   * hijacked specifier, in specifier order, and keeps the earlier log.
   */
  lemma {:induction false} HijackSpecifiersLog(st: RewriteState, pos: nat, specs: seq<ImportSpecifier>,
                                               target: HijackTarget, env: Env)
    requires pos < |st.body|
    ensures var r := HijackSpecifiers(st, pos, specs, target, env);
      var added := r.renames[|st.renames|..];
      && r.renames[..|st.renames|] == st.renames
      && r.requests == st.requests + |added|
      && Froms(added) == HijackedSpecLocals(specs, target, env.bindings)
  {
    if specs != [] {
      var init := specs[..|specs| - 1];
      var spec := specs[|specs| - 1];
      HijackSpecifiersLog(st, pos, init, target, env);
      var q := HijackSpecifiers(st, pos, init, target, env);
      var added := q.renames[|st.renames|..];
      var r := HijackSpecifier(q, pos, spec, target, env);
      if IsMatchingModuleImportName(spec, target) && spec.local in env.bindings {
        var rec := r.renames[|r.renames| - 1];
        assert r.renames == q.renames + [rec];
        assert r.renames[|st.renames|..] == added + [rec];
        FromsAppend(added, rec);
      }
    }
  }

  /**
   * The layout after hijacking one import: the statements up to and including the
   * import, renamed; then one bind declaration per hijacked specifier, the last
   * hijacked first; then the statements that followed the import, renamed.
   */
  lemma {:induction false} HijackSpecifiersLayout(st: RewriteState, pos: nat, specs: seq<ImportSpecifier>,
                                                  target: HijackTarget, env: Env)
    requires pos < |st.body|
    ensures var r := HijackSpecifiers(st, pos, specs, target, env);
      var added := r.renames[|st.renames|..];
      r.body == RenameLog(st.body[..pos + 1], added) + BindDecls(added, env.messagesVar)
                + RenameLog(st.body[pos + 1..], added)
  {
    if specs == [] {
      RenameLogEmpty(st.body[..pos + 1]);
      RenameLogEmpty(st.body[pos + 1..]);
      assert st.body == st.body[..pos + 1] + st.body[pos + 1..];
    } else {
      var init := specs[..|specs| - 1];
      var spec := specs[|specs| - 1];
      HijackSpecifiersLayout(st, pos, init, target, env);
      var q := HijackSpecifiers(st, pos, init, target, env);
      var added := q.renames[|st.renames|..];
      var r := HijackSpecifier(q, pos, spec, target, env);
      if IsMatchingModuleImportName(spec, target) && spec.local in env.bindings {
        var rec := r.renames[|r.renames| - 1];
        assert r.renames == q.renames + [rec];
        assert r.renames[|st.renames|..] == added + [rec];
        InsertKeepsLayout(st.body[..pos + 1], st.body[pos + 1..], added, rec, env.messagesVar);
      } else {
        assert r.renames == q.renames;
      }
    }
  }

  // ---------------------------------------------------------------- freshness

  /**
   * Every rename of `log` moves a name of `used0` to a name outside `used0`, the new
   * names are pairwise distinct, and all of them are now taken in `used`.
   */
  predicate FreshLog(log: seq<RenameRecord>, used0: set<string>, used: set<string>)
  {
    && (forall i :: 0 <= i < |log| ==> log[i].from in used0 && log[i].to !in used0 && log[i].to in used)
    && (forall i, j :: 0 <= i < j < |log| ==> log[i].to != log[j].to)
  }

  lemma FreshLogExtend(log: seq<RenameRecord>, used0: set<string>, used: set<string>, rec: RenameRecord)
    requires FreshLog(log, used0, used) && used0 <= used && rec.from in used0 && rec.to !in used
    ensures FreshLog(log + [rec], used0, used + {rec.to})
  {
  }

  lemma FreshLogGrow(log: seq<RenameRecord>, used0: set<string>, used: set<string>, more: set<string>)
    requires FreshLog(log, used0, used)
    ensures FreshLog(log, used0, used + more)
  {
  }

  /**
   * Hijacking one import only adds names to the scope, and every name it renames
   * to was free before and is reserved afterwards.
   */
  lemma {:induction false} HijackSpecifiersFresh(st: RewriteState, pos: nat, specs: seq<ImportSpecifier>,
                                                 target: HijackTarget, env: Env, used0: set<string>)
    requires pos < |st.body|
    requires env.bindings <= used0 <= st.used && FreshLog(st.renames, used0, st.used)
    ensures var r := HijackSpecifiers(st, pos, specs, target, env);
      st.used <= r.used && FreshLog(r.renames, used0, r.used)
  {
    if specs != [] {
      var init := specs[..|specs| - 1];
      var spec := specs[|specs| - 1];
      HijackSpecifiersFresh(st, pos, init, target, env, used0);
      var q := HijackSpecifiers(st, pos, init, target, env);
      var r := HijackSpecifier(q, pos, spec, target, env);
      if IsMatchingModuleImportName(spec, target) {
        var hijacked := FreshName(q.used, target.functionName + "Function");
        if spec.local in env.bindings {
          FreshLogExtend(q.renames, used0, q.used, RenameRecord(spec.local, hijacked));
        } else {
          FreshLogGrow(q.renames, used0, q.used, {hijacked});
        }
      }
    }
  }

  // ---------------------------------------------------------------- driver

  /** The hijack targets visited for one statement: each target whose import matches hijacks it. */
  function VisitTargets(st: RewriteState, pos: nat, stmt: Stmt, targets: seq<HijackTarget>, env: Env)
    : (r: RewriteState)
    requires pos < |st.body|
    ensures |r.body| >= |st.body| && |r.renames| >= |st.renames|
  {
    if targets == [] then st
    else
      var q := VisitTargets(st, pos, stmt, targets[..|targets| - 1], env);
      var target := targets[|targets| - 1];
      if IsMatchingNamedImport(stmt, target) then HijackSpecifiers(q, pos, stmt.specifiers, target, env)
      else q
  }

  /**
   * The driver's pass over the first `n` original statements. The `k`-th original
   * statement sits at index `k` plus the number of declarations inserted so far,
   * all of which were inserted before it.
   */
  function Scan(orig: seq<Stmt>, used0: set<string>, n: nat, env: Env): (r: RewriteState)
    requires n <= |orig|
    ensures |r.body| >= |orig|
  {
    if n == 0 then RewriteState(orig, used0, 0, [])
    else
      var st := Scan(orig, used0, n - 1, env);
      VisitTargets(st, |st.body| - |orig| + (n - 1), orig[n - 1], env.targets, env)
  }

  /** The locals one statement hijacks, target by target. */
  function HijackedStmtLocals(stmt: Stmt, targets: seq<HijackTarget>, bindings: set<string>): seq<string>
  {
    if targets == [] then []
    else
      var target := targets[|targets| - 1];
      HijackedStmtLocals(stmt, targets[..|targets| - 1], bindings)
        + (if IsMatchingNamedImport(stmt, target) then HijackedSpecLocals(stmt.specifiers, target, bindings) else [])
  }

  /**
   * The locals the pass over the first `n` statements hijacks, statement by
   * statement: the reference definition of what gets renamed, and in which order.
   */
  function HijackedLocals(orig: seq<Stmt>, n: nat, targets: seq<HijackTarget>, bindings: set<string>): seq<string>
    requires n <= |orig|
  {
    if n == 0 then []
    else HijackedLocals(orig, n - 1, targets, bindings) + HijackedStmtLocals(orig[n - 1], targets, bindings)
  }

  /** The original statements from index `n` on, not visited yet, with every rename of `log` applied. */
  function Pending(orig: seq<Stmt>, n: nat, log: seq<RenameRecord>): (r: seq<Stmt>)
    requires n <= |orig|
    ensures |r| == |orig| - n
    decreases |orig| - n
  {
    if n == |orig| then [] else [RenameStmtLog(orig[n], log)] + Pending(orig, n + 1, log)
  }

  lemma {:induction false} PendingIsRenamedSuffix(orig: seq<Stmt>, n: nat, log: seq<RenameRecord>)
    requires n <= |orig|
    ensures Pending(orig, n, log) == RenameLog(orig[n..], log)
    decreases |orig| - n
  {
    if n < |orig| {
      PendingIsRenamedSuffix(orig, n + 1, log);
      RenameLogHead(orig[n..], log);
      assert orig[n..][1..] == orig[n + 1..];
    }
  }

  lemma {:induction false} PendingCompose(orig: seq<Stmt>, n: nat, a: seq<RenameRecord>, b: seq<RenameRecord>)
    requires n <= |orig|
    ensures RenameLog(Pending(orig, n, a), b) == Pending(orig, n, a + b)
    decreases |orig| - n
  {
    if n < |orig| {
      PendingCompose(orig, n + 1, a, b);
      RenameLogConcat([RenameStmtLog(orig[n], a)], Pending(orig, n + 1, a), b);
      RenameLogSingle(RenameStmtLog(orig[n], a), b);
      RenameStmtLogCompose(orig[n], a, b);
    } else {
      assert RenameLog([], b) == [];
    }
  }

  /**
   * The module after the pass over the first `n` statements, given the pass's
   * final log of renames: each original statement with every rename applied,
   * followed by the bind declarations its hijack inserted, the newest first.
   */
  /** The renames of `log` from index `start` up to `end`. */
  function Segment(log: seq<RenameRecord>, start: nat, end: nat): (r: seq<RenameRecord>)
    requires start <= end <= |log|
    ensures |r| == end - start
  {
    seq(end - start, i requires 0 <= i < end - start => log[start + i])
  }

  function Weave(orig: seq<Stmt>, log: seq<RenameRecord>, env: Env, n: nat): (r: seq<Stmt>)
    requires n <= |orig| && |HijackedLocals(orig, n, env.targets, env.bindings)| <= |log|
    ensures |r| == n + |HijackedLocals(orig, n, env.targets, env.bindings)|
  {
    if n == 0 then []
    else
      var start := |HijackedLocals(orig, n - 1, env.targets, env.bindings)|;
      var end := |HijackedLocals(orig, n, env.targets, env.bindings)|;
      Weave(orig, log, env, n - 1) + [RenameStmtLog(orig[n - 1], log)] + BindDecls(Segment(log, start, end), env.messagesVar)
  }

  // ---------------------------------------------------------------- composing renames

  lemma {:induction false} RenameStmtLogCompose(s: Stmt, a: seq<RenameRecord>, b: seq<RenameRecord>)
    ensures RenameStmtLog(RenameStmtLog(s, a), b) == RenameStmtLog(s, a + b)
  {
    if b == [] {
      assert a + b == a;
    } else {
      var b' := b[..|b| - 1];
      RenameStmtLogCompose(s, a, b');
      assert (a + b)[..|a + b| - 1] == a + b';
    }
  }

  lemma RenameLogCompose(body: seq<Stmt>, a: seq<RenameRecord>, b: seq<RenameRecord>)
    ensures RenameLog(RenameLog(body, a), b) == RenameLog(body, a + b)
  {
    forall i | 0 <= i < |body| ensures RenameLog(RenameLog(body, a), b)[i] == RenameLog(body, a + b)[i] {
      RenameStmtLogCompose(body[i], a, b);
    }
  }

  lemma BindDeclsRenamed(a: seq<RenameRecord>, messagesVar: string, log: seq<RenameRecord>)
    ensures RenameLog(BindDecls(a, messagesVar), log) == BindDecls(a, messagesVar)
  {
    var d := BindDecls(a, messagesVar);
    forall i | 0 <= i < |d| ensures RenameLog(d, log)[i] == d[i] {
      BindDeclAt(a, messagesVar, i);
      RenameStmtLogKind(d[i], log);
    }
  }

  /** Declarations inserted later at the same place come first. */
  lemma BindDeclsConcat(a: seq<RenameRecord>, b: seq<RenameRecord>, messagesVar: string)
    ensures BindDecls(a + b, messagesVar) == BindDecls(b, messagesVar) + BindDecls(a, messagesVar)
  {
    var lhs := BindDecls(a + b, messagesVar);
    var rhs := BindDecls(b, messagesVar) + BindDecls(a, messagesVar);
    forall i | 0 <= i < |lhs| ensures lhs[i] == rhs[i] {
      BindDeclAt(a + b, messagesVar, i);
      if i < |b| {
        BindDeclAt(b, messagesVar, i);
      } else {
        BindDeclAt(a, messagesVar, i - |b|);
      }
    }
  }

  lemma {:induction false} WeaveRename(orig: seq<Stmt>, log: seq<RenameRecord>, more: seq<RenameRecord>, env: Env, n: nat)
    requires n <= |orig| && |HijackedLocals(orig, n, env.targets, env.bindings)| <= |log|
    ensures RenameLog(Weave(orig, log, env, n), more) == Weave(orig, log + more, env, n)
  {
    if n > 0 {
      WeaveRename(orig, log, more, env, n - 1);
      WeaveRenameStep(orig, log, more, env, n);
    }
  }

  lemma WeaveRenameStep(orig: seq<Stmt>, log: seq<RenameRecord>, more: seq<RenameRecord>, env: Env, n: nat)
    requires 0 < n <= |orig| && |HijackedLocals(orig, n, env.targets, env.bindings)| <= |log|
    requires |HijackedLocals(orig, n - 1, env.targets, env.bindings)| <= |log|
    requires RenameLog(Weave(orig, log, env, n - 1), more) == Weave(orig, log + more, env, n - 1)
    ensures RenameLog(Weave(orig, log, env, n), more) == Weave(orig, log + more, env, n)
  {
    var start := |HijackedLocals(orig, n - 1, env.targets, env.bindings)|;
    var end := |HijackedLocals(orig, n, env.targets, env.bindings)|;
    var full := log + more;
    var w := Weave(orig, log, env, n - 1);
    var x := orig[n - 1];
    var d := BindDecls(Segment(log, start, end), env.messagesVar);
    WeaveUnfold(orig, log, env, n, start, end);
    BindDeclsRenamed(Segment(log, start, end), env.messagesVar, more);
    RenameWoven(w, x, d, log, more);
    WeaveUnfoldExtended(orig, log, more, env, n, start, end);
    RenameChain(Weave(orig, log, env, n), Weave(orig, full, env, n), w, Weave(orig, full, env, n - 1),
                RenameStmtLog(x, log), RenameStmtLog(x, full), d, more);
  }

  /** The equational step that closes `WeaveRenameStep`. */
  lemma RenameChain(a: seq<Stmt>, c: seq<Stmt>, w: seq<Stmt>, wr: seq<Stmt>, s: Stmt, sr: Stmt, d: seq<Stmt>,
                    more: seq<RenameRecord>)
    requires a == w + [s] + d && c == wr + [sr] + d
    requires RenameLog(w + [s] + d, more) == RenameLog(w, more) + [sr] + d
    requires RenameLog(w, more) == wr
    ensures RenameLog(a, more) == c
  {
  }

  /** Renaming a woven prefix renames its original statements and leaves the declarations alone. */
  lemma RenameWoven(w: seq<Stmt>, x: Stmt, d: seq<Stmt>, log: seq<RenameRecord>, more: seq<RenameRecord>)
    requires RenameLog(d, more) == d
    ensures RenameLog(w + [RenameStmtLog(x, log)] + d, more)
         == RenameLog(w, more) + [RenameStmtLog(x, log + more)] + d
  {
    var s := [RenameStmtLog(x, log)];
    RenameLogConcat(w + s, d, more);
    RenameLogConcat(w, s, more);
    RenameLogSingle(RenameStmtLog(x, log), more);
    RenameStmtLogCompose(x, log, more);
  }

  // ---------------------------------------------------------------- one statement, all targets

  lemma FromsConcat(a: seq<RenameRecord>, b: seq<RenameRecord>)
    ensures Froms(a + b) == Froms(a) + Froms(b)
  {
  }

  lemma {:induction false} VisitTargetsLog(st: RewriteState, pos: nat, stmt: Stmt, targets: seq<HijackTarget>, env: Env)
    requires pos < |st.body|
    ensures var r := VisitTargets(st, pos, stmt, targets, env);
      var added := r.renames[|st.renames|..];
      && r.renames == st.renames + added
      && r.requests == st.requests + |added|
      && Froms(added) == HijackedStmtLocals(stmt, targets, env.bindings)
  {
    if targets != [] {
      var init := targets[..|targets| - 1];
      var target := targets[|targets| - 1];
      var q := VisitTargets(st, pos, stmt, init, env);
      if IsMatchingNamedImport(stmt, target) {
        var r := HijackSpecifiers(q, pos, stmt.specifiers, target, env);
        assert VisitTargets(st, pos, stmt, targets, env) == r;
        VisitTargetsLog(st, pos, stmt, init, env);
        HijackSpecifiersLog(q, pos, stmt.specifiers, target, env);
        var a1 := q.renames[|st.renames|..];
        var a2 := r.renames[|q.renames|..];
        assert r.renames == q.renames + a2;
        assert r.renames[|st.renames|..] == a1 + a2;
        FromsConcat(a1, a2);
      } else {
        assert VisitTargets(st, pos, stmt, targets, env) == q;
        VisitTargetsLog(st, pos, stmt, init, env);
      }
    }
  }

  /**
   * `r` is `st` with the declarations of the renames added since `st` inserted
   * right after position `pos`, and those renames applied to every statement.
   */
  predicate Spliced(st: RewriteState, pos: nat, r: RewriteState, messagesVar: string)
    requires pos < |st.body| && |st.renames| <= |r.renames|
  {
    var added := r.renames[|st.renames|..];
    r.body == RenameLog(st.body[..pos + 1], added) + BindDecls(added, messagesVar)
              + RenameLog(st.body[pos + 1..], added)
  }

  lemma {:induction false} VisitTargetsLayout(st: RewriteState, pos: nat, stmt: Stmt, targets: seq<HijackTarget>, env: Env)
    requires pos < |st.body|
    ensures Spliced(st, pos, VisitTargets(st, pos, stmt, targets, env), env.messagesVar)
  {
    if targets == [] {
      var before := st.body[..pos + 1];
      var after := st.body[pos + 1..];
      RenameLogEmpty(before);
      RenameLogEmpty(after);
      assert st.body == before + after;
    } else {
      var init := targets[..|targets| - 1];
      var target := targets[|targets| - 1];
      var q := VisitTargets(st, pos, stmt, init, env);
      if IsMatchingNamedImport(stmt, target) {
        assert VisitTargets(st, pos, stmt, targets, env) == HijackSpecifiers(q, pos, stmt.specifiers, target, env);
        VisitTargetsLayout(st, pos, stmt, init, env);
        VisitTargetsLog(st, pos, stmt, init, env);
        SplicedStep(st, pos, q, stmt.specifiers, target, env);
      } else {
        assert VisitTargets(st, pos, stmt, targets, env) == q;
        VisitTargetsLayout(st, pos, stmt, init, env);
      }
    }
  }

  /** Hijacking one more import after a splice is still a splice, with the two logs joined. */
  lemma SplicedStep(st: RewriteState, pos: nat, q: RewriteState, specs: seq<ImportSpecifier>, target: HijackTarget, env: Env)
    requires pos < |st.body| <= |q.body| && |st.renames| <= |q.renames|
    requires q.renames == st.renames + q.renames[|st.renames|..]
    requires Spliced(st, pos, q, env.messagesVar)
    ensures Spliced(st, pos, HijackSpecifiers(q, pos, specs, target, env), env.messagesVar)
  {
    var r := HijackSpecifiers(q, pos, specs, target, env);
    var a1 := q.renames[|st.renames|..];
    var a2 := r.renames[|q.renames|..];
    var before := st.body[..pos + 1];
    var after := st.body[pos + 1..];
    assert r.renames[|st.renames|..] == a1 + a2 by {
      HijackSpecifiersLog(q, pos, specs, target, env);
      JoinedSuffix(st.renames, q.renames, r.renames);
    }
    assert r.body == RenameLog(q.body[..pos + 1], a2) + BindDecls(a2, env.messagesVar)
                     + RenameLog(q.body[pos + 1..], a2) by {
      HijackSpecifiersLayout(q, pos, specs, target, env);
    }
    LayoutCompose(before, after, q.body, a1, a2, env.messagesVar);
  }

  /** A log that extends a log that extends `s` ends in the two extensions, joined. */
  lemma JoinedSuffix<T>(s: seq<T>, q: seq<T>, r: seq<T>)
    requires |s| <= |q| <= |r| && q == s + q[|s|..] && r[..|q|] == q
    ensures r[|s|..] == q[|s|..] + r[|q|..]
  {
    assert r == q + r[|q|..];
  }

  /** A second hijack of the same import keeps the layout, with the two logs joined. */
  lemma LayoutCompose(before: seq<Stmt>, after: seq<Stmt>, body: seq<Stmt>, a1: seq<RenameRecord>,
                      a2: seq<RenameRecord>, messagesVar: string)
    requires body == RenameLog(before, a1) + BindDecls(a1, messagesVar) + RenameLog(after, a1)
    ensures RenameLog(body[..|before|], a2) + BindDecls(a2, messagesVar) + RenameLog(body[|before|..], a2)
         == RenameLog(before, a1 + a2) + BindDecls(a1 + a2, messagesVar) + RenameLog(after, a1 + a2)
  {
    var p1 := RenameLog(before, a1);
    var d1 := BindDecls(a1, messagesVar);
    var s1 := RenameLog(after, a1);
    assert body[..|before|] == p1;
    assert body[|before|..] == d1 + s1;
    RenameLogCompose(before, a1, a2);
    RenameLogConcat(d1, s1, a2);
    BindDeclsRenamed(a1, messagesVar, a2);
    RenameLogCompose(after, a1, a2);
    BindDeclsConcat(a1, a2, messagesVar);
  }

  lemma {:induction false} VisitTargetsFresh(st: RewriteState, pos: nat, stmt: Stmt, targets: seq<HijackTarget>, env: Env,
                                             used0: set<string>)
    requires pos < |st.body|
    requires env.bindings <= used0 <= st.used && FreshLog(st.renames, used0, st.used)
    ensures var r := VisitTargets(st, pos, stmt, targets, env);
      st.used <= r.used && FreshLog(r.renames, used0, r.used)
  {
    if targets != [] {
      var init := targets[..|targets| - 1];
      var target := targets[|targets| - 1];
      VisitTargetsFresh(st, pos, stmt, init, env, used0);
      var q := VisitTargets(st, pos, stmt, init, env);
      if IsMatchingNamedImport(stmt, target) {
        HijackSpecifiersFresh(q, pos, stmt.specifiers, target, env, used0);
      }
    }
  }

  // ---------------------------------------------------------------- the pass

  /**
   * The pass over the first `n` statements renames exactly the hijacked locals, in
   * order, and requests the messages variable once per rename.
   */
  lemma {:induction false} ScanLog(orig: seq<Stmt>, used0: set<string>, n: nat, env: Env)
    requires n <= |orig|
    ensures var r := Scan(orig, used0, n, env);
      Froms(r.renames) == HijackedLocals(orig, n, env.targets, env.bindings) && r.requests == |r.renames|
  {
    if n > 0 {
      ScanLog(orig, used0, n - 1, env);
      var st := Scan(orig, used0, n - 1, env);
      var pos := |st.body| - |orig| + (n - 1);
      VisitTargetsLog(st, pos, orig[n - 1], env.targets, env);
      var r := VisitTargets(st, pos, orig[n - 1], env.targets, env);
      FromsConcat(st.renames, r.renames[|st.renames|..]);
    }
  }

  /** Every name the pass renames to is new: outside `used0`, pairwise distinct, and reserved. */
  lemma {:induction false} ScanFresh(orig: seq<Stmt>, used0: set<string>, n: nat, env: Env)
    requires n <= |orig| && env.bindings <= used0
    ensures var r := Scan(orig, used0, n, env);
      used0 <= r.used && FreshLog(r.renames, used0, r.used)
  {
    if n > 0 {
      ScanFresh(orig, used0, n - 1, env);
      var st := Scan(orig, used0, n - 1, env);
      VisitTargetsFresh(st, |st.body| - |orig| + (n - 1), orig[n - 1], env.targets, env, used0);
    }
  }

  /**
   * The module after visiting the first `n` statements: the woven prefix followed
   * by the statements not visited yet, each with every rename so far.
   */
  predicate LaidOut(orig: seq<Stmt>, env: Env, n: nat, r: RewriteState)
    requires n <= |orig|
  {
    |HijackedLocals(orig, n, env.targets, env.bindings)| == |r.renames|
    && r.body == Weave(orig, r.renames, env, n) + Pending(orig, n, r.renames)
  }

  /** After the pass over the first `n` statements, the module is laid out as `LaidOut` says. */
  lemma {:induction false} ScanLayout(orig: seq<Stmt>, used0: set<string>, n: nat, env: Env)
    requires n <= |orig|
    ensures LaidOut(orig, env, n, Scan(orig, used0, n, env))
  {
    if n == 0 {
      PendingNothing(orig);
      assert Scan(orig, used0, 0, env).body == [] + orig;
    } else {
      var st := Scan(orig, used0, n - 1, env);
      var pos := |st.body| - |orig| + (n - 1);
      assert Scan(orig, used0, n, env) == VisitTargets(st, pos, orig[n - 1], env.targets, env);
      ScanLayout(orig, used0, n - 1, env);
      ScanLayoutStep(orig, env, n, st, pos);
    }
  }

  lemma PendingNothing(orig: seq<Stmt>)
    ensures Pending(orig, 0, []) == orig
  {
    PendingIsRenamedSuffix(orig, 0, []);
    RenameLogEmpty(orig);
    assert orig[0..] == orig;
  }

  /** One step of the pass keeps the layout of `LaidOut`. */
  lemma ScanLayoutStep(orig: seq<Stmt>, env: Env, n: nat, st: RewriteState, pos: nat)
    requires 0 < n <= |orig| && |st.body| >= |orig|
    requires LaidOut(orig, env, n - 1, st)
    requires pos == |st.body| - |orig| + (n - 1)
    ensures LaidOut(orig, env, n, VisitTargets(st, pos, orig[n - 1], env.targets, env))
  {
    var r := VisitTargets(st, pos, orig[n - 1], env.targets, env);
    VisitTargetsLayout(st, pos, orig[n - 1], env.targets, env);
    VisitTargetsLog(st, pos, orig[n - 1], env.targets, env);
    var added := r.renames[|st.renames|..];
    assert |Froms(added)| == |added|;
    assert |HijackedLocals(orig, n, env.targets, env.bindings)| == |st.renames| + |added|;
    WeaveStep(orig, st.renames, added, env, n, st.body, pos);
  }

  /** Visiting statement `n - 1` after a woven prefix extends the weave by that statement. */
  lemma WeaveStep(orig: seq<Stmt>, log: seq<RenameRecord>, added: seq<RenameRecord>, env: Env, n: nat,
                  body: seq<Stmt>, pos: nat)
    requires 0 < n <= |orig|
    requires |HijackedLocals(orig, n - 1, env.targets, env.bindings)| == |log|
    requires |HijackedLocals(orig, n, env.targets, env.bindings)| == |log| + |added|
    requires body == Weave(orig, log, env, n - 1) + Pending(orig, n - 1, log)
    requires pos == |Weave(orig, log, env, n - 1)|
    ensures pos < |body|
    ensures RenameLog(body[..pos + 1], added) + BindDecls(added, env.messagesVar) + RenameLog(body[pos + 1..], added)
         == Weave(orig, log + added, env, n) + Pending(orig, n, log + added)
  {
    // The same steps for the first statement and for the others: with `n` left
    // open, the solver looks into the empty weave before it takes the step.
    if n == 1 {
      BodySplit(orig, log, n, Weave(orig, log, env, n - 1), body, pos);
      PrefixRenamed(orig, log, added, env, n);
      PendingCompose(orig, n, log, added);
      WeaveAppend(orig, log, added, env, n);
      SpliceChain(body, pos + 1, Weave(orig, log, env, n - 1) + [RenameStmtLog(orig[n - 1], log)], Pending(orig, n, log),
                  Weave(orig, log + added, env, n - 1) + [RenameStmtLog(orig[n - 1], log + added)],
                  BindDecls(added, env.messagesVar), Pending(orig, n, log + added), Weave(orig, log + added, env, n), added);
    } else {
      BodySplit(orig, log, n, Weave(orig, log, env, n - 1), body, pos);
      PrefixRenamed(orig, log, added, env, n);
      PendingCompose(orig, n, log, added);
      WeaveAppend(orig, log, added, env, n);
      SpliceChain(body, pos + 1, Weave(orig, log, env, n - 1) + [RenameStmtLog(orig[n - 1], log)], Pending(orig, n, log),
                  Weave(orig, log + added, env, n - 1) + [RenameStmtLog(orig[n - 1], log + added)],
                  BindDecls(added, env.messagesVar), Pending(orig, n, log + added), Weave(orig, log + added, env, n), added);
    }
  }

  /** A body laid out as `w` and the pending statements splits right after the next original one. */
  lemma BodySplit(orig: seq<Stmt>, log: seq<RenameRecord>, n: nat, w: seq<Stmt>, body: seq<Stmt>, pos: nat)
    requires 0 < n <= |orig| && body == w + Pending(orig, n - 1, log) && pos == |w|
    ensures pos < |body|
    ensures body[..pos + 1] == w + [RenameStmtLog(orig[n - 1], log)] && body[pos + 1..] == Pending(orig, n, log)
  {
    HeadSplit(orig, log, n, w);
  }

  /** The equational step that closes `WeaveStep`. */
  lemma SpliceChain(body: seq<Stmt>, k: nat, head: seq<Stmt>, tail: seq<Stmt>, head': seq<Stmt>, d: seq<Stmt>,
                    tail': seq<Stmt>, woven: seq<Stmt>, added: seq<RenameRecord>)
    requires k <= |body| && body[..k] == head && body[k..] == tail
    requires RenameLog(head, added) == head' && RenameLog(tail, added) == tail'
    requires woven == head' + d
    ensures RenameLog(body[..k], added) + d + RenameLog(body[k..], added) == woven + tail'
  {
  }

  /** The weave of statement `n - 1` ends with the declarations of the renames it added. */
  lemma WeaveAppend(orig: seq<Stmt>, log: seq<RenameRecord>, added: seq<RenameRecord>, env: Env, n: nat)
    requires 0 < n <= |orig|
    requires |HijackedLocals(orig, n - 1, env.targets, env.bindings)| == |log|
    requires |HijackedLocals(orig, n, env.targets, env.bindings)| == |log| + |added|
    ensures Weave(orig, log + added, env, n)
         == Weave(orig, log + added, env, n - 1) + [RenameStmtLog(orig[n - 1], log + added)]
            + BindDecls(added, env.messagesVar)
  {
    var full := log + added;
    assert Segment(full, |log|, |log| + |added|) == added;
    WeaveUnfold(orig, full, env, n, |log|, |log| + |added|);
  }

  lemma PrefixRenamed(orig: seq<Stmt>, log: seq<RenameRecord>, added: seq<RenameRecord>, env: Env, n: nat)
    requires 0 < n <= |orig|
    requires |HijackedLocals(orig, n - 1, env.targets, env.bindings)| <= |log|
    ensures RenameLog(Weave(orig, log, env, n - 1) + [RenameStmtLog(orig[n - 1], log)], added)
         == Weave(orig, log + added, env, n - 1) + [RenameStmtLog(orig[n - 1], log + added)]
  {
    var x := orig[n - 1];
    RenameLogConcat(Weave(orig, log, env, n - 1), [RenameStmtLog(x, log)], added);
    RenameLogSingle(RenameStmtLog(x, log), added);
    RenameStmtLogCompose(x, log, added);
    WeaveRename(orig, log, added, env, n - 1);
  }

  lemma HeadSplit(orig: seq<Stmt>, log: seq<RenameRecord>, n: nat, w: seq<Stmt>)
    requires 0 < n <= |orig|
    ensures var body := w + Pending(orig, n - 1, log);
      && body[..|w| + 1] == w + [RenameStmtLog(orig[n - 1], log)]
      && body[|w| + 1..] == Pending(orig, n, log)
  {
    var body := w + Pending(orig, n - 1, log);
    assert body == (w + [RenameStmtLog(orig[n - 1], log)]) + Pending(orig, n, log);
  }

  lemma RenameLogSingle(s: Stmt, log: seq<RenameRecord>)
    ensures RenameLog([s], log) == [RenameStmtLog(s, log)]
  {
  }

  lemma WeaveUnfold(orig: seq<Stmt>, log: seq<RenameRecord>, env: Env, n: nat, start: nat, end: nat)
    requires 0 < n <= |orig| && |HijackedLocals(orig, n, env.targets, env.bindings)| <= |log|
    requires start == |HijackedLocals(orig, n - 1, env.targets, env.bindings)| && end == |HijackedLocals(orig, n, env.targets, env.bindings)|
    ensures Weave(orig, log, env, n)
         == Weave(orig, log, env, n - 1) + [RenameStmtLog(orig[n - 1], log)] + BindDecls(Segment(log, start, end), env.messagesVar)
  {
  }

  /** Extending the log past the renames of the first `n` statements keeps their declarations. */
  lemma WeaveUnfoldExtended(orig: seq<Stmt>, log: seq<RenameRecord>, more: seq<RenameRecord>, env: Env, n: nat,
                            start: nat, end: nat)
    requires 0 < n <= |orig| && |HijackedLocals(orig, n, env.targets, env.bindings)| <= |log|
    requires start == |HijackedLocals(orig, n - 1, env.targets, env.bindings)| && end == |HijackedLocals(orig, n, env.targets, env.bindings)|
    ensures start <= end <= |log|
    ensures Weave(orig, log + more, env, n)
         == Weave(orig, log + more, env, n - 1) + [RenameStmtLog(orig[n - 1], log + more)]
            + BindDecls(Segment(log, start, end), env.messagesVar)
  {
    assert Segment(log + more, start, end) == Segment(log, start, end);
    WeaveUnfold(orig, log + more, env, n, start, end);
  }

  // ---------------------------------------------------------------- what the weave keeps

  lemma {:induction false} RefCountConcat(a: seq<Stmt>, b: seq<Stmt>, x: string)
    ensures RefCount(a + b, x) == RefCount(a, x) + RefCount(b, x)
  {
    if a != [] {
      assert (a + b)[0] == a[0];
      assert (a + b)[1..] == a[1..] + b;
      RefCountConcat(a[1..], b, x);
    } else {
      assert a + b == b;
    }
  }

  lemma {:induction false} MessagesDeclCountConcat(a: seq<Stmt>, b: seq<Stmt>)
    ensures MessagesDeclCount(a + b) == MessagesDeclCount(a) + MessagesDeclCount(b)
  {
    if a != [] {
      assert (a + b)[0] == a[0];
      assert (a + b)[1..] == a[1..] + b;
      MessagesDeclCountConcat(a[1..], b);
    } else {
      assert a + b == b;
    }
  }

  /** The inserted declarations are plugin statements: no references, no `MessagesDecl`, nothing in `Source`. */
  lemma {:induction false} BindDeclsInert(log: seq<RenameRecord>, messagesVar: string, x: string)
    ensures var d := BindDecls(log, messagesVar);
      RefCount(d, x) == 0 && MessagesDeclCount(d) == 0 && Source(d) == []
  {
    if log != [] {
      var d := BindDecls(log, messagesVar);
      BindDeclsInert(log[..|log| - 1], messagesVar, x);
      assert d[1..] == BindDecls(log[..|log| - 1], messagesVar);
    }
  }

  /** The first statement of a renamed body, and the rest. */
  lemma RenameLogHead(body: seq<Stmt>, log: seq<RenameRecord>)
    requires body != []
    ensures RenameLog(body, log)[0] == RenameStmtLog(body[0], log)
    ensures RenameLog(body, log)[1..] == RenameLog(body[1..], log)
  {
  }

  lemma {:induction false} RenameLogKeepsKinds(body: seq<Stmt>, log: seq<RenameRecord>)
    ensures Source(RenameLog(body, log)) == RenameLog(Source(body), log)
    ensures MessagesDeclCount(RenameLog(body, log)) == MessagesDeclCount(body)
  {
    if body != [] {
      RenameLogHead(body, log);
      RenameLogKeepsKinds(body[1..], log);
      RenameStmtLogKind(body[0], log);
      var head := if IsGenerated(body[0]) then [] else [body[0]];
      assert Source(body) == head + Source(body[1..]);
      RenameLogConcat(head, Source(body[1..]), log);
    }
  }

  /** Woven, the first `n` statements have the references of the renamed originals. */
  lemma {:induction false} WeaveRefCount(orig: seq<Stmt>, log: seq<RenameRecord>, env: Env, n: nat, x: string)
    requires n <= |orig| && |HijackedLocals(orig, n, env.targets, env.bindings)| <= |log|
    ensures RefCount(Weave(orig, log, env, n), x) == RefCount(RenameLog(orig[..n], log), x)
  {
    if n == 0 {
      assert orig[..0] == [];
    } else {
      var start := |HijackedLocals(orig, n - 1, env.targets, env.bindings)|;
      var end := |HijackedLocals(orig, n, env.targets, env.bindings)|;
      var w := Weave(orig, log, env, n - 1);
      var one := [RenameStmtLog(orig[n - 1], log)];
      var d := BindDecls(Segment(log, start, end), env.messagesVar);
      WeaveRefCount(orig, log, env, n - 1, x);
      BindDeclsInert(Segment(log, start, end), env.messagesVar, x);
      RefCountConcat(w + one, d, x);
      RefCountConcat(w, one, x);
      PrefixStep(orig, log, n);
      RefCountConcat(RenameLog(orig[..n - 1], log), one, x);
    }
  }

  /** The renamed first `n` statements are the renamed first `n - 1` and one more. */
  lemma PrefixStep(orig: seq<Stmt>, log: seq<RenameRecord>, n: nat)
    requires 0 < n <= |orig|
    ensures RenameLog(orig[..n], log) == RenameLog(orig[..n - 1], log) + [RenameStmtLog(orig[n - 1], log)]
  {
    assert orig[..n] == orig[..n - 1] + [orig[n - 1]];
    RenameLogConcat(orig[..n - 1], [orig[n - 1]], log);
    RenameLogSingle(orig[n - 1], log);
  }

  /** Woven, the first `n` statements have the source statements of the renamed originals. */
  lemma {:induction false} WeaveSource(orig: seq<Stmt>, log: seq<RenameRecord>, env: Env, n: nat)
    requires n <= |orig| && |HijackedLocals(orig, n, env.targets, env.bindings)| <= |log|
    ensures Source(Weave(orig, log, env, n)) == Source(RenameLog(orig[..n], log))
  {
    if n == 0 {
      assert orig[..0] == [];
    } else {
      var start := |HijackedLocals(orig, n - 1, env.targets, env.bindings)|;
      var end := |HijackedLocals(orig, n, env.targets, env.bindings)|;
      var w := Weave(orig, log, env, n - 1);
      var one := [RenameStmtLog(orig[n - 1], log)];
      var d := BindDecls(Segment(log, start, end), env.messagesVar);
      WeaveSource(orig, log, env, n - 1);
      BindDeclsInert(Segment(log, start, end), env.messagesVar, "");
      SourceConcat(w + one, d);
      SourceConcat(w, one);
      PrefixStep(orig, log, n);
      SourceConcat(RenameLog(orig[..n - 1], log), one);
    }
  }

  /** Woven, the first `n` statements hold exactly as many `MessagesDecl` as the originals. */
  lemma {:induction false} WeaveMessagesDecls(orig: seq<Stmt>, log: seq<RenameRecord>, env: Env, n: nat)
    requires n <= |orig| && |HijackedLocals(orig, n, env.targets, env.bindings)| <= |log|
    ensures MessagesDeclCount(Weave(orig, log, env, n)) == MessagesDeclCount(RenameLog(orig[..n], log))
  {
    if n == 0 {
      assert orig[..0] == [];
    } else {
      var start := |HijackedLocals(orig, n - 1, env.targets, env.bindings)|;
      var end := |HijackedLocals(orig, n, env.targets, env.bindings)|;
      var w := Weave(orig, log, env, n - 1);
      var one := [RenameStmtLog(orig[n - 1], log)];
      var d := BindDecls(Segment(log, start, end), env.messagesVar);
      WeaveMessagesDecls(orig, log, env, n - 1);
      BindDeclsInert(Segment(log, start, end), env.messagesVar, "");
      MessagesDeclCountConcat(w + one, d);
      MessagesDeclCountConcat(w, one);
      PrefixStep(orig, log, n);
      MessagesDeclCountConcat(RenameLog(orig[..n - 1], log), one);
    }
  }

  // ---------------------------------------------------------------- references

  function Tos(log: seq<RenameRecord>): seq<string>
  {
    seq(|log|, i requires 0 <= i < |log| => log[i].to)
  }

  /** No earlier rename of `log` has the same origin as the `i`-th. */
  predicate FirstFrom(log: seq<RenameRecord>, i: nat)
    requires i < |log|
  {
    forall j :: 0 <= j < i ==> log[j].from != log[i].from
  }

  /**
   * How the references of `cur`, which is `body` after the renames of `log`, relate
   * to those of `body`: the renamed names have none left; the new name of each
   * first rename of a name has exactly that name's references; every other name of
   * `used0` keeps its references, and any other name has none.
   */
  ghost predicate Coverage(body: seq<Stmt>, cur: seq<Stmt>, log: seq<RenameRecord>, used0: set<string>)
  {
    && (forall i :: 0 <= i < |log| ==> RefCount(cur, log[i].from) == 0)
    && (forall i :: 0 <= i < |log| && FirstFrom(log, i) ==> RefCount(cur, log[i].to) == RefCount(body, log[i].from))
    && (forall y :: y in used0 && y !in Froms(log) ==> RefCount(cur, y) == RefCount(body, y))
    && (forall z :: z !in used0 && z !in Tos(log) ==> RefCount(cur, z) == 0)
  }

  lemma CoverageStep(body: seq<Stmt>, cur: seq<Stmt>, log: seq<RenameRecord>, used0: set<string>, used: set<string>,
                     rec: RenameRecord)
    requires Coverage(body, cur, log, used0)
    requires FreshLog(log + [rec], used0, used)
    ensures Coverage(body, RenameRefs(cur, rec.from, rec.to), log + [rec], used0)
  {
    var log' := log + [rec];
    var cur' := RenameRefs(cur, rec.from, rec.to);
    assert log'[|log|] == rec;
    assert rec.from in used0 && rec.to !in used0;
    forall y ensures RefCount(cur', rec.from) == 0
      && RefCount(cur', rec.to) == RefCount(cur, rec.to) + RefCount(cur, rec.from)
      && (y != rec.from && y != rec.to ==> RefCount(cur', y) == RefCount(cur, y))
    {
      RenameMovesReferences(cur, rec.from, rec.to, y);
    }
    FromsAppend(log, rec);
    assert Tos(log') == Tos(log) + [rec.to];
    assert rec.to !in Tos(log) by {
      forall i | 0 <= i < |log| ensures Tos(log)[i] != rec.to {
        assert log'[i] == log[i];
      }
    }
    forall i | 0 <= i < |log'| && FirstFrom(log', i)
      ensures RefCount(cur', log'[i].to) == RefCount(body, log'[i].from)
    {
      if i == |log| {
        assert rec.from !in Froms(log) by {
          forall j | 0 <= j < |log| ensures Froms(log)[j] != rec.from {
            assert log'[j] == log[j];
          }
        }
        assert RefCount(cur, rec.to) == 0;
      } else {
        assert log'[i] == log[i];
        assert FirstFrom(log, i) by {
          forall j | 0 <= j < i ensures log[j].from != log[i].from {
            assert log'[j] == log[j];
          }
        }
      }
    }
    forall i | 0 <= i < |log'| ensures RefCount(cur', log'[i].from) == 0 {
      if i < |log| {
        assert log'[i] == log[i];
      }
    }
  }

  /** The coverage of a whole log of fresh renames over a body whose names lie in `used0`. */
  lemma {:induction false} RenameLogCoverage(body: seq<Stmt>, log: seq<RenameRecord>, used0: set<string>, used: set<string>)
    requires NamesWithin(body, used0)
    requires FreshLog(log, used0, used)
    ensures Coverage(body, RenameLog(body, log), log, used0)
  {
    if log == [] {
      RenameLogEmpty(body);
      forall z | z !in used0 ensures RefCount(body, z) == 0 {
        UnusedNameHasNoReferences(body, used0, z);
      }
    } else {
      var init := log[..|log| - 1];
      var rec := log[|log| - 1];
      assert log == init + [rec];
      assert FreshLog(init, used0, used);
      RenameLogCoverage(body, init, used0, used);
      CoverageStep(body, RenameLog(body, init), init, used0, used, rec);
      RenameRefsExtendsLog(body, init, rec);
    }
  }

  // ---------------------------------------------------------------- when a hijack happens

  /** `stmt` imports `target`'s function under a local name that has a binding. */
  predicate Hijacks(stmt: Stmt, target: HijackTarget, bindings: set<string>)
  {
    && IsMatchingNamedImport(stmt, target)
    && exists i :: 0 <= i < |stmt.specifiers|
         && IsMatchingModuleImportName(stmt.specifiers[i], target) && stmt.specifiers[i].local in bindings
  }

  lemma {:induction false} HijackedSpecLocalsNonEmpty(specs: seq<ImportSpecifier>, target: HijackTarget, bindings: set<string>)
    ensures HijackedSpecLocals(specs, target, bindings) != []
        <==> exists i :: 0 <= i < |specs| && IsMatchingModuleImportName(specs[i], target) && specs[i].local in bindings
  {
    if specs != [] {
      var init := specs[..|specs| - 1];
      var last := specs[|specs| - 1];
      var prev := HijackedSpecLocals(init, target, bindings);
      HijackedSpecLocalsNonEmpty(init, target, bindings);
      if prev != [] {
        var i :| 0 <= i < |init| && IsMatchingModuleImportName(init[i], target) && init[i].local in bindings;
        assert specs[i] == init[i];
      }
    }
  }

  lemma {:induction false} HijackedStmtLocalsNonEmpty(stmt: Stmt, targets: seq<HijackTarget>, bindings: set<string>)
    ensures HijackedStmtLocals(stmt, targets, bindings) != []
        <==> exists j :: 0 <= j < |targets| && Hijacks(stmt, targets[j], bindings)
  {
    if targets != [] {
      var init := targets[..|targets| - 1];
      var target := targets[|targets| - 1];
      var prev := HijackedStmtLocals(stmt, init, bindings);
      var last := if IsMatchingNamedImport(stmt, target) then HijackedSpecLocals(stmt.specifiers, target, bindings) else [];
      assert HijackedStmtLocals(stmt, targets, bindings) == prev + last;
      HijackedStmtLocalsNonEmpty(stmt, init, bindings);
      if IsMatchingNamedImport(stmt, target) {
        HijackedSpecLocalsNonEmpty(stmt.specifiers, target, bindings);
      }
      SomeTargetSplit(stmt, targets, bindings);
    }
  }

  /** Some target is hijacked exactly when one before the last is, or the last one is. */
  lemma SomeTargetSplit(stmt: Stmt, targets: seq<HijackTarget>, bindings: set<string>)
    requires targets != []
    ensures var init := targets[..|targets| - 1];
      (exists j :: 0 <= j < |targets| && Hijacks(stmt, targets[j], bindings))
        <==> (exists j :: 0 <= j < |init| && Hijacks(stmt, init[j], bindings))
             || Hijacks(stmt, targets[|targets| - 1], bindings)
  {
    var init := targets[..|targets| - 1];
    if exists j :: 0 <= j < |targets| && Hijacks(stmt, targets[j], bindings) {
      var j :| 0 <= j < |targets| && Hijacks(stmt, targets[j], bindings);
      if j < |init| {
        assert init[j] == targets[j];
      }
    }
    if exists j :: 0 <= j < |init| && Hijacks(stmt, init[j], bindings) {
      var j :| 0 <= j < |init| && Hijacks(stmt, init[j], bindings);
      assert targets[j] == init[j];
    }
  }

  /**
   * The pass over the first `n` statements hijacks something exactly when one of
   * them imports a target's function under a name that has a binding.
   */
  lemma {:induction false} HijackedLocalsNonEmpty(orig: seq<Stmt>, n: nat, targets: seq<HijackTarget>, bindings: set<string>)
    requires n <= |orig|
    ensures HijackedLocals(orig, n, targets, bindings) != []
        <==> exists k, j :: 0 <= k < n && 0 <= j < |targets| && Hijacks(orig[k], targets[j], bindings)
  {
    if n > 0 {
      var prev := HijackedLocals(orig, n - 1, targets, bindings);
      var last := HijackedStmtLocals(orig[n - 1], targets, bindings);
      assert HijackedLocals(orig, n, targets, bindings) == prev + last;
      HijackedLocalsNonEmpty(orig, n - 1, targets, bindings);
      HijackedStmtLocalsNonEmpty(orig[n - 1], targets, bindings);
      if prev != [] {
        var k, j :| 0 <= k < n - 1 && 0 <= j < |targets| && Hijacks(orig[k], targets[j], bindings);
        assert 0 <= k < n;
      } else if last != [] {
        var j :| 0 <= j < |targets| && Hijacks(orig[n - 1], targets[j], bindings);
        assert 0 <= n - 1 < n;
      }
    }
  }

  /** With nothing hijacked, the weave is the statements themselves. */
  lemma {:induction false} WeaveEmpty(orig: seq<Stmt>, env: Env, n: nat)
    requires n <= |orig| && HijackedLocals(orig, n, env.targets, env.bindings) == []
    ensures Weave(orig, [], env, n) == orig[..n]
  {
    if n > 0 {
      assert |HijackedLocals(orig, n - 1, env.targets, env.bindings)| == 0;
      WeaveEmpty(orig, env, n - 1);
      WeaveUnfold(orig, [], env, n, 0, 0);
      var empty: seq<RenameRecord> := [];
      assert Segment(empty, 0, 0) == [];
      assert BindDecls(Segment(empty, 0, 0), env.messagesVar) == [];
      assert RenameStmtLog(orig[n - 1], []) == orig[n - 1];
      assert orig[..n] == orig[..n - 1] + [orig[n - 1]];
    }
  }
}
