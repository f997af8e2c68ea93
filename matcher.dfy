/** Deciding whether a statement imports a hijack target. */
module Matcher {
  import opened Ast

  /** A function to intercept and the module it is imported from. */
  datatype HijackTarget = HijackTarget(moduleName: string, functionName: string)

  /** The statement is an import declaration whose source is the target's module. */
  predicate IsMatchingModule(s: Stmt, target: HijackTarget)
  {
    s.Import? && s.source == target.moduleName
  }

  /** The specifier is a named specifier importing the target's function by identifier. */
  predicate IsMatchingModuleImportName(spec: ImportSpecifier, target: HijackTarget)
  {
    spec.Named? && spec.imported.Identifier? && spec.imported.name == target.functionName
  }

  /** The statement imports the target's function from the target's module. */
  predicate IsMatchingNamedImport(s: Stmt, target: HijackTarget)
  {
    IsMatchingModule(s, target)
    && exists i :: 0 <= i < |s.specifiers| && IsMatchingModuleImportName(s.specifiers[i], target)
  }

  /** A statement matches exactly when it is `import { <function> as x } from '<module>'` for some `x`. */
  lemma MatchesExactly(s: Stmt, target: HijackTarget)
    ensures IsMatchingNamedImport(s, target)
       <==> s.Import? && s.source == target.moduleName
            && exists i :: 0 <= i < |s.specifiers|
                 && s.specifiers[i] == Named(Identifier(target.functionName), s.specifiers[i].local)
  {
    if s.Import? {
      forall i | 0 <= i < |s.specifiers|
        ensures IsMatchingModuleImportName(s.specifiers[i], target)
           <==> s.specifiers[i] == Named(Identifier(target.functionName), s.specifiers[i].local)
      {
      }
    }
  }

  /** The right function from another module never matches. */
  lemma NameOnlyNeverMatches(s: Stmt, target: HijackTarget)
    requires s.Import? && s.source != target.moduleName
    ensures !IsMatchingNamedImport(s, target)
  {
  }

  /** An import from the right module without a named specifier for the function never matches. */
  lemma ModuleOnlyNeverMatches(s: Stmt, target: HijackTarget)
    requires s.Import?
    requires forall i :: 0 <= i < |s.specifiers| ==>
      s.specifiers[i].Default? || s.specifiers[i].Namespace?
      || s.specifiers[i].imported != Identifier(target.functionName)
    ensures !IsMatchingNamedImport(s, target)
  {
  }

  /** Re-exports and every other non-import statement never match. */
  lemma OnlyImportsMatch(s: Stmt, target: HijackTarget)
    requires !s.Import?
    ensures !IsMatchingNamedImport(s, target)
  {
  }

  /** Matching an import is deciding it for each of its specifiers. */
  lemma MatchSplits(source: string, a: seq<ImportSpecifier>, b: seq<ImportSpecifier>, target: HijackTarget)
    ensures IsMatchingNamedImport(Import(source, a + b), target)
       <==> IsMatchingNamedImport(Import(source, a), target) || IsMatchingNamedImport(Import(source, b), target)
  {
    var ab := a + b;
    if IsMatchingNamedImport(Import(source, ab), target) {
      var i :| 0 <= i < |ab| && IsMatchingModuleImportName(ab[i], target);
      if i < |a| {
        assert ab[i] == a[i];
      } else {
        assert ab[i] == b[i - |a|];
      }
    }
    if IsMatchingNamedImport(Import(source, a), target) && IsMatchingModule(Import(source, ab), target) {
      var i :| 0 <= i < |a| && IsMatchingModuleImportName(a[i], target);
      assert ab[i] == a[i];
    }
    if IsMatchingNamedImport(Import(source, b), target) && IsMatchingModule(Import(source, ab), target) {
      var i :| 0 <= i < |b| && IsMatchingModuleImportName(b[i], target);
      assert ab[|a| + i] == b[i];
    }
  }
}
