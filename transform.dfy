/**
 * What the plugin's `Program` visitor does to one module, as a value, and the
 * properties of that result.
 */
module Transform {
  import opened Wrappers
  import opened Ast
  import opened Matcher
  import opened FreshNames
  import opened Paths
  import opened Assembler
  import opened Rewrite

  /**
   * The visitor's result: the module's statements, the names taken in its scope,
   * whether it completed or threw, the messages variable, and the renames done.
   */
  datatype Visit = Visit(body: seq<Stmt>, used: set<string>, outcome: Outcome<PluginError>,
                         messagesVar: string, renames: seq<RenameRecord>)

  /** The names taken in the module scope before the visit: every name the module mentions, and its bindings. */
  function ScopeNames(orig: seq<Stmt>, bindings: set<string>): set<string>
  {
    NamesIn(orig) + bindings
  }

  /** The scope-unique name reserved for the messages when the visitor starts. */
  function MessagesVar(orig: seq<Stmt>, bindings: set<string>): (r: string)
    ensures r !in ScopeNames(orig, bindings)
  {
    FreshName(ScopeNames(orig, bindings), "messages")
  }

  function EnvOf(orig: seq<Stmt>, bindings: set<string>, targets: seq<HijackTarget>): Env
  {
    Env(targets, bindings, MessagesVar(orig, bindings))
  }

  /** The hijacks of the visitor's pass over the whole module. */
  function HijackAll(orig: seq<Stmt>, bindings: set<string>, targets: seq<HijackTarget>): RewriteState
  {
    Scan(orig, ScopeNames(orig, bindings) + {MessagesVar(orig, bindings)}, |orig|, EnvOf(orig, bindings, targets))
  }

  /**
   * The `Program` visitor on a module. A missing file name throws before anything
   * changes; otherwise the messages variable is reserved, every statement is visited
   * against every target, and when the messages variable was requested at least once
   * the locale data is assembled and declared first in the module. A loader failure
   * throws after the hijacks are done.
   */
  function ProgramVisit(orig: seq<Stmt>, bindings: set<string>, filename: Option<string>, cwd: string,
                        separator: char, targets: seq<HijackTarget>, ext: string,
                        readDir: ReadDir, loader: Loader): (v: Visit)
    ensures filename.None? ==> v.body == orig && v.outcome == Fail(MissingFilename)
  {
    if filename.None? then Visit(orig, ScopeNames(orig, bindings), Fail(MissingFilename), "", [])
    else
      var sourceFilePath := NormaliseFilename(filename.value, cwd, separator);
      var messagesVar := MessagesVar(orig, bindings);
      var st := HijackAll(orig, bindings, targets);
      if st.requests == 0 then Visit(st.body, st.used, Pass, messagesVar, st.renames)
      else
        match InjectedMessagesOf(sourceFilePath, ext, readDir, loader)
        case Success(messages) =>
          Visit([MessagesDecl(messagesVar, messages)] + st.body, st.used, Pass, messagesVar, st.renames)
        case Failure(err) => Visit(st.body, st.used, Fail(err), messagesVar, st.renames)
  }

  /** The locals the visit hijacks: those of matching specifiers that have a binding, in visiting order. */
  function Hijacked(orig: seq<Stmt>, targets: seq<HijackTarget>, bindings: set<string>): seq<string>
  {
    HijackedLocals(orig, |orig|, targets, bindings)
  }

  /**
   * The pass renames exactly the hijacked locals, in order, each to a name that was
   * free before the visit (and is not the messages variable), all distinct; it
   * requests the messages variable once per rename; and it leaves the woven module.
   */
  lemma HijackAllShape(orig: seq<Stmt>, bindings: set<string>, targets: seq<HijackTarget>)
    ensures var st := HijackAll(orig, bindings, targets);
      && Froms(st.renames) == Hijacked(orig, targets, bindings)
      && st.requests == |st.renames|
      && FreshLog(st.renames, ScopeNames(orig, bindings) + {MessagesVar(orig, bindings)}, st.used)
      && st.body == Weave(orig, st.renames, EnvOf(orig, bindings, targets), |orig|)
  {
    var used0 := ScopeNames(orig, bindings) + {MessagesVar(orig, bindings)};
    var env := EnvOf(orig, bindings, targets);
    var n := |orig|;
    ScanLog(orig, used0, n, env);
    ScanFresh(orig, used0, n, env);
    ScanLayout(orig, used0, n, env);
    var st := Scan(orig, used0, n, env);
    assert Pending(orig, n, st.renames) == [];
  }

  /**
   * The visit renames exactly the hijacked locals, in order, each to a name that was
   * free before the visit and is not the messages variable, all of them distinct.
   */
  lemma VisitRenames(orig: seq<Stmt>, bindings: set<string>, filename: string, cwd: string,
                     separator: char, targets: seq<HijackTarget>, ext: string, readDir: ReadDir, loader: Loader)
    ensures var v := ProgramVisit(orig, bindings, Some(filename), cwd, separator, targets, ext, readDir, loader);
      && v.messagesVar == MessagesVar(orig, bindings)
      && Froms(v.renames) == Hijacked(orig, targets, bindings)
      && FreshLog(v.renames, ScopeNames(orig, bindings) + {v.messagesVar}, v.used)
  {
    HijackAllShape(orig, bindings, targets);
  }

  /**
   * When something was hijacked and the locale data could be assembled, the module
   * after the visit is the messages declaration followed by the woven module: every
   * original statement with the renames applied, each hijacked import followed by
   * its bind declarations.
   */
  lemma VisitInjects(orig: seq<Stmt>, bindings: set<string>, filename: string, cwd: string,
                     separator: char, targets: seq<HijackTarget>, ext: string, readDir: ReadDir, loader: Loader)
    requires Hijacked(orig, targets, bindings) != []
    requires InjectedMessagesOf(NormaliseFilename(filename, cwd, separator), ext, readDir, loader).Success?
    ensures var v := ProgramVisit(orig, bindings, Some(filename), cwd, separator, targets, ext, readDir, loader);
      var data := InjectedMessagesOf(NormaliseFilename(filename, cwd, separator), ext, readDir, loader);
      && |v.renames| == |Hijacked(orig, targets, bindings)|
      && v.outcome == Pass
      && v.body == [MessagesDecl(v.messagesVar, data.value)] + Weave(orig, v.renames, EnvOf(orig, bindings, targets), |orig|)
  {
    HijackAllShape(orig, bindings, targets);
    var st := HijackAll(orig, bindings, targets);
    assert |Froms(st.renames)| == |st.renames|;
    assert st.requests != 0;
  }

  /** When the locale data cannot be assembled the visit throws, after the hijacks are done. */
  lemma VisitFails(orig: seq<Stmt>, bindings: set<string>, filename: string, cwd: string,
                   separator: char, targets: seq<HijackTarget>, ext: string, readDir: ReadDir, loader: Loader)
    requires Hijacked(orig, targets, bindings) != []
    requires InjectedMessagesOf(NormaliseFilename(filename, cwd, separator), ext, readDir, loader).Failure?
    ensures var v := ProgramVisit(orig, bindings, Some(filename), cwd, separator, targets, ext, readDir, loader);
      var data := InjectedMessagesOf(NormaliseFilename(filename, cwd, separator), ext, readDir, loader);
      && |v.renames| == |Hijacked(orig, targets, bindings)|
      && v.outcome == Fail(data.error)
      && v.body == Weave(orig, v.renames, EnvOf(orig, bindings, targets), |orig|)
  {
    HijackAllShape(orig, bindings, targets);
    var st := HijackAll(orig, bindings, targets);
    assert |Froms(st.renames)| == |st.renames|;
    assert st.requests != 0;
  }

  /** A module with nothing to hijack comes back unchanged, and its locale files are never read. */
  lemma VisitUntouched(orig: seq<Stmt>, bindings: set<string>, filename: string, cwd: string,
                       separator: char, targets: seq<HijackTarget>, ext: string, readDir: ReadDir, loader: Loader,
                       readDir': ReadDir, loader': Loader)
    requires Hijacked(orig, targets, bindings) == []
    ensures var v := ProgramVisit(orig, bindings, Some(filename), cwd, separator, targets, ext, readDir, loader);
      && v.body == orig && v.outcome == Pass && v.renames == []
      && v == ProgramVisit(orig, bindings, Some(filename), cwd, separator, targets, ext, readDir', loader')
  {
    HijackAllUntouched(orig, bindings, targets);
  }

  /** With nothing to hijack, the pass renames nothing, requests nothing and leaves the module as it was. */
  lemma HijackAllUntouched(orig: seq<Stmt>, bindings: set<string>, targets: seq<HijackTarget>)
    requires Hijacked(orig, targets, bindings) == []
    ensures var st := HijackAll(orig, bindings, targets);
      st.renames == [] && st.requests == 0 && st.body == orig
  {
    HijackAllShape(orig, bindings, targets);
    var st := HijackAll(orig, bindings, targets);
    assert |Froms(st.renames)| == |st.renames|;
    var env := EnvOf(orig, bindings, targets);
    WeaveEmpty(orig, env, |orig|);
    assert orig[..|orig|] == orig;
  }

  /** The visit hijacks something exactly when a statement imports a target's function under a bound name. */
  lemma VisitHijacksWhen(orig: seq<Stmt>, bindings: set<string>, filename: string, cwd: string,
                         separator: char, targets: seq<HijackTarget>, ext: string, readDir: ReadDir, loader: Loader)
    ensures var v := ProgramVisit(orig, bindings, Some(filename), cwd, separator, targets, ext, readDir, loader);
      v.renames != [] <==> exists k, j :: 0 <= k < |orig| && 0 <= j < |targets| && Hijacks(orig[k], targets[j], bindings)
  {
    HijackAllShape(orig, bindings, targets);
    HijackedLocalsNonEmpty(orig, |orig|, targets, bindings);
    var st := HijackAll(orig, bindings, targets);
    assert |Froms(st.renames)| == |st.renames|;
  }

  /** The woven module with or without a messages declaration in front, as the visit leaves it. */
  lemma VisitCases(orig: seq<Stmt>, bindings: set<string>, filename: Option<string>, cwd: string,
                   separator: char, targets: seq<HijackTarget>, ext: string, readDir: ReadDir, loader: Loader)
    returns (front: seq<Stmt>)
    ensures var v := ProgramVisit(orig, bindings, filename, cwd, separator, targets, ext, readDir, loader);
      && (v.renames == [] ==> v.body == orig && front == [])
      && (v.renames != [] ==> |Hijacked(orig, targets, bindings)| == |v.renames|
                              && v.body == front + Weave(orig, v.renames, EnvOf(orig, bindings, targets), |orig|))
      && (front == [] || (|front| == 1 && front[0].MessagesDecl? && front[0].name == v.messagesVar))
      && (v.renames != [] ==> (|front| == 1 <==> v.outcome.Pass?))
  {
    front := [];
    if filename.Some? {
      var f := filename.value;
      var data := InjectedMessagesOf(NormaliseFilename(f, cwd, separator), ext, readDir, loader);
      VisitRenames(orig, bindings, f, cwd, separator, targets, ext, readDir, loader);
      var v := ProgramVisit(orig, bindings, filename, cwd, separator, targets, ext, readDir, loader);
      assert |Froms(v.renames)| == |v.renames|;
      if Hijacked(orig, targets, bindings) == [] {
        VisitUntouched(orig, bindings, f, cwd, separator, targets, ext, readDir, loader, readDir, loader);
      } else if data.Success? {
        VisitInjects(orig, bindings, f, cwd, separator, targets, ext, readDir, loader);
        front := [MessagesDecl(v.messagesVar, data.value)];
      } else {
        VisitFails(orig, bindings, f, cwd, separator, targets, ext, readDir, loader);
      }
    }
  }

  /** Apart from the generated declarations, the module after the visit is the original with the renames applied. */
  lemma VisitSource(orig: seq<Stmt>, bindings: set<string>, filename: Option<string>, cwd: string,
                    separator: char, targets: seq<HijackTarget>, ext: string, readDir: ReadDir, loader: Loader)
    ensures var v := ProgramVisit(orig, bindings, filename, cwd, separator, targets, ext, readDir, loader);
      Source(v.body) == RenameLog(Source(orig), v.renames)
  {
    var v := ProgramVisit(orig, bindings, filename, cwd, separator, targets, ext, readDir, loader);
    var front := VisitCases(orig, bindings, filename, cwd, separator, targets, ext, readDir, loader);
    if v.renames == [] {
      RenameLogEmpty(Source(orig));
    } else {
      var w := Weave(orig, v.renames, EnvOf(orig, bindings, targets), |orig|);
      WeaveSource(orig, v.renames, EnvOf(orig, bindings, targets), |orig|);
      assert orig[..|orig|] == orig;
      RenameLogKeepsKinds(orig, v.renames);
      SourceConcat(front, w);
      assert Source(front) == [] by {
        if front != [] {
          assert front[1..] == [];
        }
      }
    }
  }

  /**
   * A module without plugin declarations ends with one messages declaration exactly
   * when something was hijacked and the visit completed, and none otherwise.
   */
  lemma VisitMessagesDecl(orig: seq<Stmt>, bindings: set<string>, filename: Option<string>, cwd: string,
                          separator: char, targets: seq<HijackTarget>, ext: string, readDir: ReadDir, loader: Loader)
    requires MessagesDeclCount(orig) == 0
    ensures var v := ProgramVisit(orig, bindings, filename, cwd, separator, targets, ext, readDir, loader);
      && MessagesDeclCount(v.body) == (if v.renames != [] && v.outcome.Pass? then 1 else 0)
      && (MessagesDeclCount(v.body) == 1 ==> v.body[0].MessagesDecl? && v.body[0].name == v.messagesVar)
  {
    var v := ProgramVisit(orig, bindings, filename, cwd, separator, targets, ext, readDir, loader);
    var front := VisitCases(orig, bindings, filename, cwd, separator, targets, ext, readDir, loader);
    if v.renames != [] {
      var w := Weave(orig, v.renames, EnvOf(orig, bindings, targets), |orig|);
      WeaveMessagesDecls(orig, v.renames, EnvOf(orig, bindings, targets), |orig|);
      assert orig[..|orig|] == orig;
      RenameLogKeepsKinds(orig, v.renames);
      MessagesDeclCountConcat(front, w);
      assert MessagesDeclCount(front) == |front| by {
        if front != [] {
          assert front[1..] == [];
        }
      }
    }
  }

  /**
   * After the visit no reference in the original statements names a hijacked local
   * (the bind declarations still name it as the function they bind); the new name of each
   * hijacked local carries exactly the references the local had; every other name
   * of the scope keeps its references, and no other name has any.
   */
  lemma VisitReferences(orig: seq<Stmt>, bindings: set<string>, filename: Option<string>, cwd: string,
                        separator: char, targets: seq<HijackTarget>, ext: string, readDir: ReadDir, loader: Loader)
    ensures var v := ProgramVisit(orig, bindings, filename, cwd, separator, targets, ext, readDir, loader);
      Coverage(orig, v.body, v.renames, ScopeNames(orig, bindings) + {MessagesVar(orig, bindings)})
  {
    var v := ProgramVisit(orig, bindings, filename, cwd, separator, targets, ext, readDir, loader);
    var front := VisitCases(orig, bindings, filename, cwd, separator, targets, ext, readDir, loader);
    var used0 := ScopeNames(orig, bindings) + {MessagesVar(orig, bindings)};
    NamesInWithin(orig);
    assert NamesWithin(orig, used0);
    if v.renames == [] {
      RenameLogCoverage(orig, [], used0, used0);
      RenameLogEmpty(orig);
    } else {
      assert filename.Some?;
      VisitRenames(orig, bindings, filename.value, cwd, separator, targets, ext, readDir, loader);
      RenameLogCoverage(orig, v.renames, used0, v.used);
      var env := EnvOf(orig, bindings, targets);
      var w := Weave(orig, v.renames, env, |orig|);
      assert orig[..|orig|] == orig;
      forall x ensures RefCount(v.body, x) == RefCount(RenameLog(orig, v.renames), x) {
        WeaveRefCount(orig, v.renames, env, |orig|, x);
        RefCountConcat(front, w, x);
        if front != [] {
          assert front[1..] == [];
        }
      }
      CoverageTransfer(orig, RenameLog(orig, v.renames), v.body, v.renames, used0);
    }
  }

  lemma CoverageTransfer(body: seq<Stmt>, cur: seq<Stmt>, cur': seq<Stmt>, log: seq<RenameRecord>, used0: set<string>)
    requires Coverage(body, cur, log, used0)
    requires forall x :: RefCount(cur', x) == RefCount(cur, x)
    ensures Coverage(body, cur', log, used0)
  {
  }
}
