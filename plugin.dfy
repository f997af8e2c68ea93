/**
 * The plugin itself: the `Messages` object that owns the messages variable and
 * injects the locale data, the named-import hijack, and the `Program` visitor.
 * Each operation is proved to compute the functions of `Rewrite` and `Transform`.
 */
module Plugin {
  import opened Wrappers
  import opened Ast
  import opened Matcher
  import opened FreshNames
  import opened Paths
  import opened Assembler
  import opened Rewrite
  import opened Transform
  import opened Scope

  /** What `messageModulePlugin` is configured with. */
  datatype PluginConfig = PluginConfig(hijackTargets: seq<HijackTarget>, messagesFileExtension: string, getMessages: Loader)

  class Messages {
    /** The program the messages are injected into. */
    const program: ProgramPath
    /** The app-root-relative path of the compiled file. */
    const sourceFilePath: string
    const messagesFileExtension: string
    /** The directory listing the locale files are looked up in. */
    const readDir: ReadDir
    /** The function that loads one messages file. */
    const getMessages: Loader
    /** The scope-unique name of the messages variable. */
    const variableName: string
    /** How many times the messages variable was handed out. */
    var getVariableNameCount: nat

    /**
     * Normalises the compiled file's path and reserves the messages variable's
     * name in the program scope.
     */
    constructor (program: ProgramPath, filename: string, cwd: string, separator: char,
                 messagesFileExtension: string, readDir: ReadDir, getMessages: Loader)
      modifies program
      ensures this.program == program && this.messagesFileExtension == messagesFileExtension
      ensures this.readDir == readDir && this.getMessages == getMessages
      ensures sourceFilePath == NormaliseFilename(filename, cwd, separator)
      ensures variableName == FreshName(old(program.used), "messages")
      ensures program.used == old(program.used) + {variableName}
      ensures program.body == old(program.body) && program.renames == old(program.renames)
      ensures getVariableNameCount == 0
      ensures old(program.Valid()) ==> program.Valid()
    {
      this.program := program;
      sourceFilePath := NormaliseFilename(filename, cwd, separator);
      this.messagesFileExtension := messagesFileExtension;
      this.readDir := readDir;
      this.getMessages := getMessages;
      var name := program.GenerateUid("messages");
      variableName := name;
      getVariableNameCount := 0;
    }

    /** Hands out the messages variable and counts the request. */
    method GetVariableName() returns (name: string)
      modifies this
      ensures name == variableName
      ensures getVariableNameCount == old(getVariableNameCount) + 1
    {
      getVariableNameCount := getVariableNameCount + 1;
      name := variableName;
    }

    /**
     * When the messages variable was requested, assembles the locale data and
     * declares it first in the program; a loader failure leaves the program as it is.
     */
    method InjectIfMatchesFound() returns (outcome: Outcome<PluginError>)
      modifies program
      ensures program.used == old(program.used) && program.renames == old(program.renames)
      ensures old(program.Valid()) && variableName in program.used ==> program.Valid()
      ensures getVariableNameCount == 0 ==> program.body == old(program.body) && outcome == Pass
      ensures getVariableNameCount > 0 ==>
        var data := InjectedMessagesOf(sourceFilePath, messagesFileExtension, readDir, getMessages);
        && (data.Success? ==> program.body == [MessagesDecl(variableName, data.value)] + old(program.body) && outcome == Pass)
        && (data.Failure? ==> program.body == old(program.body) && outcome == Fail(data.error))
    {
      if getVariableNameCount == 0 {
        return Pass;
      }
      var data := GetInjectedMessages(sourceFilePath, messagesFileExtension, readDir, getMessages);
      match data
      case Failure(err) =>
        outcome := Fail(err);
      case Success(messages) =>
        program.Unshift(MessagesDecl(variableName, messages));
        outcome := Pass;
    }
  }

  /** The state the hijack changes, as `Rewrite` describes it. */
  ghost function StateOf(path: ProgramPath, messages: Messages): RewriteState
    reads path, messages
  {
    RewriteState(path.body, path.used, messages.getVariableNameCount, path.renames)
  }

  /** `getVariableName`: a scope-unique name for a hijacked function. */
  method GetVariableName(path: ProgramPath, hijackTarget: HijackTarget, suffix: string) returns (name: string)
    modifies path
    ensures name == FreshName(old(path.used), hijackTarget.functionName + suffix)
    ensures path.used == old(path.used) + {name}
    ensures path.body == old(path.body) && path.renames == old(path.renames)
  {
    name := path.GenerateUid(hijackTarget.functionName + suffix);
  }

  /**
   * `hijackNamedImport` on the import at index `pos`: every specifier that imports
   * the target's function gets a fresh name; when its local name has a binding, its
   * references are renamed to that name and the bind declaration is inserted right
   * after the import.
   */
  method HijackNamedImport(path: ProgramPath, pos: nat, node: Stmt, hijackTarget: HijackTarget, messages: Messages,
                           ghost env: Env)
    requires node.Import? && pos < |path.body|
    requires env.bindings == path.bindings && env.messagesVar == messages.variableName
    requires path.Valid() && messages.variableName in path.used
    modifies path, messages
    ensures StateOf(path, messages) == HijackSpecifiers(old(StateOf(path, messages)), pos, node.specifiers, hijackTarget, env)
    ensures path.Valid() && messages.variableName in path.used
  {
    ghost var st0 := StateOf(path, messages);
    var specifiers := node.specifiers;
    var i := 0;
    while i < |specifiers|
      invariant 0 <= i <= |specifiers|
      invariant pos < |path.body|
      invariant StateOf(path, messages) == HijackSpecifiers(st0, pos, specifiers[..i], hijackTarget, env)
      invariant path.Valid() && messages.variableName in path.used
    {
      var specifier := specifiers[i];
      assert specifiers[..i + 1][..i] == specifiers[..i];
      if IsMatchingModuleImportName(specifier, hijackTarget) {
        var hijackedFunction := GetVariableName(path, hijackTarget, "Function");
        var currentName := specifier.local;
        if currentName in path.bindings {
          path.RenameReferences(currentName, hijackedFunction);
          var messagesVar := messages.GetVariableName();
          assert StmtNames(BindDecl(hijackedFunction, currentName, messagesVar)) <= path.used;
          path.InsertAfter(pos, BindDecl(hijackedFunction, currentName, messagesVar));
        }
      }
      i := i + 1;
    }
    assert specifiers[..i] == specifiers;
  }

  /** The visitor's check of one statement against every target, in order. */
  method VisitStatement(path: ProgramPath, pos: nat, stmt: Stmt, targets: seq<HijackTarget>, messages: Messages,
                        ghost env: Env)
    requires pos < |path.body|
    requires env.bindings == path.bindings && env.messagesVar == messages.variableName
    requires path.Valid() && messages.variableName in path.used
    modifies path, messages
    ensures StateOf(path, messages) == VisitTargets(old(StateOf(path, messages)), pos, stmt, targets, env)
    ensures path.Valid() && messages.variableName in path.used
  {
    ghost var st := StateOf(path, messages);
    var j := 0;
    while j < |targets|
      invariant 0 <= j <= |targets|
      invariant pos < |path.body|
      invariant StateOf(path, messages) == VisitTargets(st, pos, stmt, targets[..j], env)
      invariant path.Valid() && messages.variableName in path.used
    {
      assert targets[..j + 1][..j] == targets[..j];
      if IsMatchingNamedImport(stmt, targets[j]) {
        HijackNamedImport(path, pos, stmt, targets[j], messages, env);
      }
      j := j + 1;
    }
    assert targets[..j] == targets;
  }

  /** The visit of a module with a file name, spelled out over the pass and the injection. */
  lemma ProgramVisitSteps(orig: seq<Stmt>, bindings: set<string>, filename: string, cwd: string,
                          separator: char, targets: seq<HijackTarget>, ext: string, readDir: ReadDir, loader: Loader)
    ensures var v := ProgramVisit(orig, bindings, Some(filename), cwd, separator, targets, ext, readDir, loader);
      var st := HijackAll(orig, bindings, targets);
      var data := InjectedMessagesOf(NormaliseFilename(filename, cwd, separator), ext, readDir, loader);
      && v.used == st.used && v.renames == st.renames
      && (st.requests == 0 ==> v.body == st.body && v.outcome == Pass)
      && (st.requests > 0 && data.Success? ==>
            v.body == [MessagesDecl(MessagesVar(orig, bindings), data.value)] + st.body && v.outcome == Pass)
      && (st.requests > 0 && data.Failure? ==> v.body == st.body && v.outcome == Fail(data.error))
  {
  }

  /** The visitor's pass over the original statements, each checked against every target. */
  method VisitBody(path: ProgramPath, orig: seq<Stmt>, targets: seq<HijackTarget>, messages: Messages,
                   ghost env: Env, ghost used0: set<string>)
    requires StateOf(path, messages) == Scan(orig, used0, 0, env)
    requires env.targets == targets && env.bindings == path.bindings && env.messagesVar == messages.variableName
    requires path.Valid() && messages.variableName in path.used
    modifies path, messages
    ensures StateOf(path, messages) == Scan(orig, used0, |orig|, env)
    ensures path.Valid() && messages.variableName in path.used
  {
    var k := 0;
    while k < |orig|
      invariant 0 <= k <= |orig|
      invariant StateOf(path, messages) == Scan(orig, used0, k, env)
      invariant path.Valid() && messages.variableName in path.used
    {
      var pos := |path.body| - |orig| + k;
      ghost var st := StateOf(path, messages);
      assert Scan(orig, used0, k + 1, env) == VisitTargets(st, pos, orig[k], targets, env);
      VisitStatement(path, pos, orig[k], targets, messages, env);
      k := k + 1;
    }
  }

  /**
   * The `Program` visitor of `messageModulePlugin(config)` on a freshly crawled
   * program: every original statement is checked against every target, a matching
   * import is hijacked, and the messages are injected if they were requested.
   */
  method ProgramVisitor(path: ProgramPath, filename: Option<string>, cwd: string, separator: char,
                        config: PluginConfig, readDir: ReadDir)
    returns (outcome: Outcome<PluginError>)
    requires path.used == NamesIn(path.body) + path.bindings && path.renames == []
    modifies path
    ensures var v := ProgramVisit(old(path.body), path.bindings, filename, cwd, separator, config.hijackTargets,
                                  config.messagesFileExtension, readDir, config.getMessages);
      path.body == v.body && path.used == v.used && path.renames == v.renames && outcome == v.outcome
    ensures path.Valid()
  {
    var orig := path.body;
    NamesInWithin(orig);
    if filename.None? {
      return Fail(MissingFilename);
    }
    var targets := config.hijackTargets;
    var messages := new Messages(path, filename.value, cwd, separator, config.messagesFileExtension, readDir,
                                 config.getMessages);
    ghost var env := EnvOf(orig, path.bindings, targets);
    ghost var used0 := ScopeNames(orig, path.bindings) + {messages.variableName};
    assert StateOf(path, messages) == Scan(orig, used0, 0, env);
    VisitBody(path, orig, targets, messages, env, used0);
    assert StateOf(path, messages) == HijackAll(orig, path.bindings, targets);
    ProgramVisitSteps(orig, path.bindings, filename.value, cwd, separator, targets, config.messagesFileExtension,
                      readDir, config.getMessages);
    outcome := messages.InjectIfMatchesFound();
  }
}
