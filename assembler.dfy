/**
 * `getInjectedMessages`: finding the locale files next to a source file and
 * collecting their messages under lower-case locale keys.
 */
module Assembler {
  import opened Wrappers
  import opened Text
  import opened Paths
  import opened Ast

  /** A directory entry as `readdirSync(dir, { withFileTypes: true })` reports it. */
  datatype DirEntry = DirEntry(name: string, isFile: bool)

  /** The directory listing of the file system. */
  type ReadDir = string -> seq<DirEntry>

  /** The messages-file loader; `None` stands for a loader that throws. */
  type Loader = string -> Option<KeyValueObject>

  /**
   * The locale captured when `name` is matched against
   * `^<escaped base>.(?<locale>[\w-]+).<ext>$`. The escaped base name reads back
   * as `base` itself (`RegExpEscape.EscapeReadsBack`) and `ext` is a plain literal,
   * so both are anchored literals and the capture has exactly one possible length.
   */
  function EntryLocale(name: string, base: string, ext: string): Option<string>
  {
    if |name| >= |base| + |ext| + 3
       && name[..|base|] == base
       && name[|name| - |ext|..] == ext
       && !IsLineTerminator(name[|base|])
       && !IsLineTerminator(name[|name| - |ext| - 1])
       && forall i :: |base| + 1 <= i < |name| - |ext| - 1 ==> IsLocaleChar(name[i])
    then Some(name[|base| + 1..|name| - |ext| - 1])
    else None
  }

  /** `name` is `base`, one character, `locale`, one character, `ext`, as the pattern reads. */
  predicate Fits(name: string, base: string, ext: string, c1: char, locale: string, c2: char)
  {
    && name == base + [c1] + locale + [c2] + ext
    && !IsLineTerminator(c1) && !IsLineTerminator(c2)
    && |locale| > 0
    && forall i :: 0 <= i < |locale| ==> IsLocaleChar(locale[i])
  }

  /** A match yields a decomposition of the entry name ... */
  lemma EntryLocaleFits(name: string, base: string, ext: string)
    requires EntryLocale(name, base, ext).Some?
    ensures Fits(name, base, ext, name[|base|], EntryLocale(name, base, ext).value, name[|name| - |ext| - 1])
  {
    var locale := EntryLocale(name, base, ext).value;
    var c1, c2 := name[|base|], name[|name| - |ext| - 1];
    assert name == name[..|base|] + [c1] + locale + [c2] + name[|name| - |ext|..];
  }

  /** ... and every decomposition of the name is found, with the same locale. */
  lemma FitsEntryLocale(name: string, base: string, ext: string, c1: char, locale: string, c2: char)
    requires Fits(name, base, ext, c1, locale, c2)
    ensures EntryLocale(name, base, ext) == Some(locale)
  {
    var n := |base|;
    assert name[..n] == base;
    assert name[n] == c1;
    assert name[n + 1..n + 1 + |locale|] == locale;
    assert name[n + 1 + |locale|] == c2;
    assert name[|name| - |ext|..] == ext;
    forall i | n + 1 <= i < |name| - |ext| - 1 ensures IsLocaleChar(name[i]) {
      assert name[i] == locale[i - n - 1];
    }
  }

  /** The lower-case locale key an entry contributes, if it contributes one. */
  function KeyOf(e: DirEntry, base: string, ext: string): Option<string>
  {
    if !e.isFile then None
    else
      match EntryLocale(e.name, base, ext)
      case None => None
      case Some(locale) => Some(Lower(locale))
  }

  /** One step of the `forEach`: the entry `e` on the collection so far, or the loader failure it meets. */
  function CollectEntry(acc: Result<KeyValueObjectCollection, PluginError>, e: DirEntry, dir: string, base: string,
                        ext: string, loader: Loader): Result<KeyValueObjectCollection, PluginError>
  {
    match acc
    case Failure(err) => Failure(err)
    case Success(collection) =>
      var key := KeyOf(e, base, ext);
      if key.None? then Success(collection)
      else
        var path := LoaderPath(dir, e.name);
        match loader(path)
        case None => Failure(LoaderFailed(path))
        case Some(messages) => Success(collection[key.value := messages])
  }

  /** The collection after the `forEach` over `entries` (in directory order), or the first loader failure. */
  function Collect(entries: seq<DirEntry>, dir: string, base: string, ext: string, loader: Loader)
    : Result<KeyValueObjectCollection, PluginError>
  {
    if entries == [] then Success(map[])
    else CollectEntry(Collect(entries[..|entries| - 1], dir, base, ext, loader), entries[|entries| - 1], dir, base, ext, loader)
  }

  /** The collection over a prefix grows by one entry at a time. */
  lemma CollectPrefixStep(entries: seq<DirEntry>, dir: string, base: string, ext: string, loader: Loader, i: nat)
    requires i < |entries|
    ensures Collect(entries[..i + 1], dir, base, ext, loader)
         == CollectEntry(Collect(entries[..i], dir, base, ext, loader), entries[i], dir, base, ext, loader)
  {
    assert entries[..i + 1][..i] == entries[..i];
  }

  /** The record of `getInjectedMessages(sourceFilePath, ext, loader)` over the listing `readDir`. */
  function InjectedMessagesOf(sourceFilePath: string, ext: string, readDir: ReadDir, loader: Loader)
    : Result<InjectedMessages, PluginError>
  {
    var parsed := ParsePath(sourceFilePath);
    match Collect(readDir(parsed.dir), parsed.dir, parsed.name, ext, loader)
    case Failure(err) => Failure(err)
    case Success(collection) => Success(InjectedMessages(true, sourceFilePath, collection))
  }

  lemma {:induction false} CollectFailureSticks(entries: seq<DirEntry>, dir: string, base: string, ext: string,
                                                loader: Loader, i: nat, j: nat)
    requires i <= j <= |entries|
    requires Collect(entries[..i], dir, base, ext, loader).Failure?
    ensures Collect(entries[..j], dir, base, ext, loader) == Collect(entries[..i], dir, base, ext, loader)
    decreases j
  {
    if j > i {
      CollectFailureSticks(entries, dir, base, ext, loader, i, j - 1);
      assert entries[..j][..j - 1] == entries[..j - 1];
    }
  }

  /** A failure on a prefix is the outcome of the whole listing. */
  lemma CollectFailureFinal(entries: seq<DirEntry>, dir: string, base: string, ext: string, loader: Loader, i: nat)
    requires i <= |entries| && Collect(entries[..i], dir, base, ext, loader).Failure?
    ensures Collect(entries, dir, base, ext, loader) == Collect(entries[..i], dir, base, ext, loader)
  {
    CollectFailureSticks(entries, dir, base, ext, loader, i, |entries|);
    assert entries[..|entries|] == entries;
  }

  /** What one more entry does to a collection over a prefix: skipped, added, or the failure of the whole listing. */
  lemma CollectNext(entries: seq<DirEntry>, dir: string, base: string, ext: string, loader: Loader, i: nat,
                    collection: KeyValueObjectCollection)
    requires i < |entries| && Collect(entries[..i], dir, base, ext, loader) == Success(collection)
    ensures var key := KeyOf(entries[i], base, ext);
      key.None? ==> Collect(entries[..i + 1], dir, base, ext, loader) == Success(collection)
    ensures var key := KeyOf(entries[i], base, ext);
      var messages := loader(LoaderPath(dir, entries[i].name));
      key.Some? && messages.Some? ==>
        Collect(entries[..i + 1], dir, base, ext, loader) == Success(collection[key.value := messages.value])
    ensures var key := KeyOf(entries[i], base, ext);
      var path := LoaderPath(dir, entries[i].name);
      key.Some? && loader(path).None? ==> Collect(entries, dir, base, ext, loader) == Failure(LoaderFailed(path))
  {
    CollectPrefixStep(entries, dir, base, ext, loader, i);
    if KeyOf(entries[i], base, ext).Some? && loader(LoaderPath(dir, entries[i].name)).None? {
      CollectFailureFinal(entries, dir, base, ext, loader, i + 1);
    }
  }

  /** Model of `getInjectedMessages`: one pass over the directory, loading every matching file. */
  method GetInjectedMessages(sourceFilePath: string, messagesFileExtension: string, readDir: ReadDir, loader: Loader)
    returns (r: Result<InjectedMessages, PluginError>)
    ensures r == InjectedMessagesOf(sourceFilePath, messagesFileExtension, readDir, loader)
  {
    var parsed := ParsePath(sourceFilePath);
    var dir, name := parsed.dir, parsed.name;
    var collection: KeyValueObjectCollection := map[];
    var entries := readDir(dir);
    var i := 0;
    while i < |entries|
      invariant 0 <= i <= |entries|
      invariant Collect(entries[..i], dir, name, messagesFileExtension, loader) == Success(collection)
    {
      var entry := entries[i];
      CollectNext(entries, dir, name, messagesFileExtension, loader, i, collection);
      if entry.isFile {
        var locale := EntryLocale(entry.name, name, messagesFileExtension);
        if locale.Some? {
          var messagesFilePath := if |dir| > 0 then dir + "/" + entry.name else entry.name;
          var messages := loader(messagesFilePath);
          if messages.None? {
            return Failure(LoaderFailed(messagesFilePath));
          }
          collection := collection[Lower(locale.value) := messages.value];
        }
      }
      i := i + 1;
    }
    assert entries[..i] == entries;
    r := Success(InjectedMessages(true, sourceFilePath, collection));
  }

  /** Some entry contributes the key `k`. */
  predicate HasKey(entries: seq<DirEntry>, base: string, ext: string, k: string)
  {
    exists i :: 0 <= i < |entries| && KeyOf(entries[i], base, ext) == Some(k)
  }

  /** One more entry adds its own key, if any, and keeps the others. */
  lemma CollectStep(entries: seq<DirEntry>, dir: string, base: string, ext: string, loader: Loader)
    requires entries != [] && Collect(entries, dir, base, ext, loader).Success?
    ensures var init := Collect(entries[..|entries| - 1], dir, base, ext, loader);
      var key := KeyOf(entries[|entries| - 1], base, ext);
      && init.Success?
      && Collect(entries, dir, base, ext, loader).value.Keys
         == init.value.Keys + (if key.Some? then {key.value} else {})
  {
  }

  lemma HasKeyStep(entries: seq<DirEntry>, base: string, ext: string, k: string)
    requires entries != []
    ensures HasKey(entries, base, ext, k)
        <==> HasKey(entries[..|entries| - 1], base, ext, k) || KeyOf(entries[|entries| - 1], base, ext) == Some(k)
  {
    var init := entries[..|entries| - 1];
    if HasKey(entries, base, ext, k) {
      var i :| 0 <= i < |entries| && KeyOf(entries[i], base, ext) == Some(k);
      if i < |init| {
        assert init[i] == entries[i];
      }
    }
    if HasKey(init, base, ext, k) {
      var i :| 0 <= i < |init| && KeyOf(init[i], base, ext) == Some(k);
      assert init[i] == entries[i];
    }
  }

  /** The keys of the collection are exactly the lower-cased locales of the matching files. */
  lemma {:induction false} CollectKeys(entries: seq<DirEntry>, dir: string, base: string, ext: string, loader: Loader)
    requires Collect(entries, dir, base, ext, loader).Success?
    ensures forall k :: k in Collect(entries, dir, base, ext, loader).value <==> HasKey(entries, base, ext, k)
  {
    if entries != [] {
      CollectStep(entries, dir, base, ext, loader);
      CollectKeys(entries[..|entries| - 1], dir, base, ext, loader);
      forall k {
        HasKeyStep(entries, base, ext, k);
      }
    }
  }

  /** A file whose key no later file shares supplies that key's messages: the last one wins. */
  lemma {:induction false} CollectLastWins(entries: seq<DirEntry>, dir: string, base: string, ext: string,
                                           loader: Loader, i: nat)
    requires Collect(entries, dir, base, ext, loader).Success?
    requires i < |entries| && KeyOf(entries[i], base, ext).Some?
    requires forall j :: i < j < |entries| ==> KeyOf(entries[j], base, ext) != KeyOf(entries[i], base, ext)
    ensures KeyOf(entries[i], base, ext).value in Collect(entries, dir, base, ext, loader).value
    ensures Some(Collect(entries, dir, base, ext, loader).value[KeyOf(entries[i], base, ext).value])
         == loader(LoaderPath(dir, entries[i].name))
    decreases |entries|
  {
    var init := entries[..|entries| - 1];
    if i < |entries| - 1 {
      forall j | i < j < |init| ensures KeyOf(init[j], base, ext) != KeyOf(init[i], base, ext) {
        assert init[j] == entries[j];
      }
      assert init[i] == entries[i];
      CollectLastWins(init, dir, base, ext, loader, i);
    }
  }

  /** The entry matches and its messages file cannot be loaded. */
  predicate LoadFails(e: DirEntry, dir: string, base: string, ext: string, loader: Loader)
  {
    KeyOf(e, base, ext).Some? && loader(LoaderPath(dir, e.name)).None?
  }

  /** A step fails exactly when the collection had failed or the entry fails to load. */
  lemma CollectEntryFails(acc: Result<KeyValueObjectCollection, PluginError>, e: DirEntry, dir: string, base: string,
                          ext: string, loader: Loader)
    ensures CollectEntry(acc, e, dir, base, ext, loader).Failure? <==> acc.Failure? || LoadFails(e, dir, base, ext, loader)
  {
  }

  /** Assembly fails exactly when the loader fails for some matching file. */
  lemma {:induction false} CollectFails(entries: seq<DirEntry>, dir: string, base: string, ext: string, loader: Loader)
    ensures Collect(entries, dir, base, ext, loader).Failure?
        <==> exists i :: 0 <= i < |entries| && LoadFails(entries[i], dir, base, ext, loader)
  {
    if entries != [] {
      var init := entries[..|entries| - 1];
      var last := entries[|entries| - 1];
      assert Collect(entries, dir, base, ext, loader)
          == CollectEntry(Collect(init, dir, base, ext, loader), last, dir, base, ext, loader);
      CollectFails(init, dir, base, ext, loader);
      CollectEntryFails(Collect(init, dir, base, ext, loader), last, dir, base, ext, loader);
      if exists i :: 0 <= i < |init| && LoadFails(init[i], dir, base, ext, loader) {
        var i :| 0 <= i < |init| && LoadFails(init[i], dir, base, ext, loader);
        assert init[i] == entries[i];
      }
      if exists i :: 0 <= i < |entries| && LoadFails(entries[i], dir, base, ext, loader) {
        var i :| 0 <= i < |entries| && LoadFails(entries[i], dir, base, ext, loader);
        if i < |init| {
          assert init[i] == entries[i];
        }
      }
    }
  }

  /** The error names the first matching file whose loader fails. */
  lemma {:induction false} CollectFailsAtFirst(entries: seq<DirEntry>, dir: string, base: string, ext: string,
                                               loader: Loader, i: nat)
    requires i < |entries| && LoadFails(entries[i], dir, base, ext, loader)
    requires forall j :: 0 <= j < i ==> !LoadFails(entries[j], dir, base, ext, loader)
    ensures Collect(entries, dir, base, ext, loader) == Failure(LoaderFailed(LoaderPath(dir, entries[i].name)))
  {
    var prefix := entries[..i];
    assert !Collect(prefix, dir, base, ext, loader).Failure? by {
      CollectFails(prefix, dir, base, ext, loader);
      forall j | 0 <= j < |prefix| ensures !LoadFails(prefix[j], dir, base, ext, loader) {
        assert prefix[j] == entries[j];
      }
    }
    assert entries[..i + 1][..i] == prefix;
    CollectFailureSticks(entries, dir, base, ext, loader, i + 1, |entries|);
    assert entries[..|entries|] == entries;
  }

  /** The entries that are files, in order. */
  function Files(entries: seq<DirEntry>): seq<DirEntry>
  {
    if entries == [] then []
    else Files(entries[..|entries| - 1]) + (if entries[|entries| - 1].isFile then [entries[|entries| - 1]] else [])
  }

  /** Directories and other non-file entries never contribute: dropping them changes nothing. */
  lemma {:induction false} NonFilesIgnored(entries: seq<DirEntry>, dir: string, base: string, ext: string, loader: Loader)
    ensures Collect(Files(entries), dir, base, ext, loader) == Collect(entries, dir, base, ext, loader)
  {
    if entries != [] {
      var init := entries[..|entries| - 1];
      var last := entries[|entries| - 1];
      NonFilesIgnored(init, dir, base, ext, loader);
      if last.isFile {
        assert (Files(init) + [last])[..|Files(init) + [last]| - 1] == Files(init);
      } else {
        assert Files(entries) == Files(init);
      }
    }
  }

  /** Lower-casing keeps a locale within `[\w-]`. */
  lemma LowerKeepsLocaleChars(locale: string)
    requires forall i :: 0 <= i < |locale| ==> IsLocaleChar(locale[i])
    ensures forall i :: 0 <= i < |Lower(locale)| ==> IsLocaleChar(Lower(locale)[i])
  {
  }

  /** Every key is a non-empty lower-case run of `[\w-]`. */
  lemma KeyShape(e: DirEntry, base: string, ext: string)
    requires KeyOf(e, base, ext).Some?
    ensures var k := KeyOf(e, base, ext).value;
      && |k| > 0 && IsLowerCase(k)
      && forall i :: 0 <= i < |k| ==> IsLocaleChar(k[i])
  {
    var locale := EntryLocale(e.name, base, ext).value;
    EntryLocaleFits(e.name, base, ext);
    LowerIsLowerCase(locale);
    LowerKeepsLocaleChars(locale);
  }
}
