/** The runtime helper `getMessages`, called through the bound function the plugin emits. */
module Runtime {
  import opened Wrappers
  import opened Text
  import opened Paths
  import opened Ast
  import opened Assembler

  /** "a messages-module plugin must be configured" */
  datatype RuntimeError = NotConfigured

  /**
   * `getMessages(locale)` with `this` bound to `context` (`None` when nothing is
   * bound): the messages of the lower-cased locale, or an empty object when the
   * collection has no such locale.
   */
  function GetMessages(context: Option<InjectedMessages>, locale: string): Result<KeyValueObject, RuntimeError>
  {
    if context.None? || !context.value.isInjected then Failure(NotConfigured)
    else
      var collection := context.value.keyValueObjectCollection;
      var key := Lower(locale);
      if key in collection then Success(collection[key]) else Success(map[])
  }

  /** Without an injected context every call fails, whatever the locale. */
  lemma UnboundFails(context: Option<InjectedMessages>, locale: string)
    ensures GetMessages(context, locale).Failure? <==> context.None? || !context.value.isInjected
  {
  }

  /** Locales that differ only in letter case get the same messages: `"EN-us"` and `"en-US"` agree. */
  lemma CaseInsensitive(context: Option<InjectedMessages>, a: string, b: string)
    requires |a| == |b|
    requires forall i :: 0 <= i < |a| ==> LowerChar(a[i]) == LowerChar(b[i])
    ensures GetMessages(context, a) == GetMessages(context, b)
  {
    LowerIgnoresCase(a, b);
  }

  /**
   * Against an assembled record, a locale gets the messages of the last matching
   * file whose locale lower-cases to the same key ...
   */
  lemma LookupFindsLastFile(entries: seq<DirEntry>, dir: string, base: string, ext: string, loader: Loader,
                            path: string, locale: string, i: nat)
    requires Collect(entries, dir, base, ext, loader).Success?
    requires i < |entries| && KeyOf(entries[i], base, ext) == Some(Lower(locale))
    requires forall j :: i < j < |entries| ==> KeyOf(entries[j], base, ext) != Some(Lower(locale))
    ensures var context := Some(InjectedMessages(true, path, Collect(entries, dir, base, ext, loader).value));
      && GetMessages(context, locale).Success?
      && Some(GetMessages(context, locale).value) == loader(LoaderPath(dir, entries[i].name))
  {
    CollectLastWins(entries, dir, base, ext, loader, i);
  }

  /** ... and the empty object when no file has that locale. */
  lemma LookupMissingIsEmpty(entries: seq<DirEntry>, dir: string, base: string, ext: string, loader: Loader,
                             path: string, locale: string)
    requires Collect(entries, dir, base, ext, loader).Success?
    requires forall j :: 0 <= j < |entries| ==> KeyOf(entries[j], base, ext) != Some(Lower(locale))
    ensures GetMessages(Some(InjectedMessages(true, path, Collect(entries, dir, base, ext, loader).value)), locale)
         == Success(map[])
  {
    CollectKeys(entries, dir, base, ext, loader);
  }

  /** `Greeting.en-US.properties` next to `Greeting.ts` is the `en-us` messages file. */
  lemma EnUsKey()
    ensures KeyOf(DirEntry("Greeting.en-US.properties", true), "Greeting", "properties") == Some("en-us")
  {
    assert Fits("Greeting.en-US.properties", "Greeting", "properties", '.', "en-US", '.');
    FitsEntryLocale("Greeting.en-US.properties", "Greeting", "properties", '.', "en-US", '.');
    assert Lower("en-US") == "en-us";
  }

  /** `Greeting.FR-CA.properties` is the `fr-ca` messages file. */
  lemma FrCaKey()
    ensures KeyOf(DirEntry("Greeting.FR-CA.properties", true), "Greeting", "properties") == Some("fr-ca")
  {
    assert Fits("Greeting.FR-CA.properties", "Greeting", "properties", '.', "FR-CA", '.');
    FitsEntryLocale("Greeting.FR-CA.properties", "Greeting", "properties", '.', "FR-CA", '.');
    assert Lower("FR-CA") == "fr-ca";
  }

  /** The source file itself does not match. */
  lemma SourceFileIsNoLocaleFile()
    ensures KeyOf(DirEntry("Greeting.ts", true), "Greeting", "properties") == None
  {
  }

  /** `src/Greeting.ts` parses to the directory `src` and the name `Greeting`. */
  lemma GreetingParse()
    ensures ParsePath("src/Greeting.ts") == ParsedPath("src", "Greeting")
  {
    var path := "src/Greeting.ts";
    var slash := LastIndexOf(path, '/');
    assert path[3] == '/';
    assert slash == Some(3);
    var base := path[4..];
    assert base == "Greeting.ts";
    var dot := LastIndexOf(base, '.');
    assert base[8] == '.';
    assert dot == Some(8);
    assert base[..8] == "Greeting";
  }

  /** The loader is handed `src/Greeting.en-US.properties`. */
  lemma EnUsPath()
    ensures LoaderPath("src", "Greeting.en-US.properties") == "src/Greeting.en-US.properties"
  {
    var path := "src/Greeting.en-US.properties";
    assert path[..4] == "src/" && path[4..] == "Greeting.en-US.properties";
    assert path == path[..4] + path[4..];
  }

  /** The loader is handed `src/Greeting.FR-CA.properties`. */
  lemma FrCaPath()
    ensures LoaderPath("src", "Greeting.FR-CA.properties") == "src/Greeting.FR-CA.properties"
  {
    var path := "src/Greeting.FR-CA.properties";
    assert path[..4] == "src/" && path[4..] == "Greeting.FR-CA.properties";
    assert path == path[..4] + path[4..];
  }

  /** The collection over the `src` listing holds both locale files under their keys. */
  lemma GreetingCollect(loader: Loader, en: KeyValueObject, fr: KeyValueObject)
    requires loader("src/Greeting.en-US.properties") == Some(en)
    requires loader("src/Greeting.FR-CA.properties") == Some(fr)
    ensures Collect([DirEntry("Greeting.en-US.properties", true),
                     DirEntry("Greeting.FR-CA.properties", true),
                     DirEntry("Greeting.ts", true)], "src", "Greeting", "properties", loader)
         == Success(map["en-us" := en, "fr-ca" := fr])
  {
    var e1 := DirEntry("Greeting.en-US.properties", true);
    var e2 := DirEntry("Greeting.FR-CA.properties", true);
    var e3 := DirEntry("Greeting.ts", true);
    EnUsKey();
    FrCaKey();
    SourceFileIsNoLocaleFile();
    EnUsPath();
    FrCaPath();
    var entries := [e1, e2, e3];
    assert entries[..0] == [];
    CollectNext(entries, "src", "Greeting", "properties", loader, 0, map[]);
    CollectNext(entries, "src", "Greeting", "properties", loader, 1, map["en-us" := en]);
    CollectNext(entries, "src", "Greeting", "properties", loader, 2, map["en-us" := en, "fr-ca" := fr]);
    assert entries[..3] == entries;
  }

  /** `EN-us` finds the `en-us` messages and `de-DE` finds none. */
  lemma GreetingLookup(en: KeyValueObject, fr: KeyValueObject)
    ensures var context := Some(InjectedMessages(true, "src/Greeting.ts", map["en-us" := en, "fr-ca" := fr]));
      && GetMessages(context, "EN-us") == Success(en)
      && GetMessages(context, "de-DE") == Success(map[])
  {
    assert Lower("EN-us") == "en-us";
    assert Lower("de-DE") == "de-de";
  }

  /**
   * `src/Greeting.ts` with two locale files beside it: the keys are `en-us` and
   * `fr-ca`, `EN-us` finds the `en-US` messages and `de-DE` finds none.
   */
  lemma GreetingExample(readDir: ReadDir, loader: Loader, en: KeyValueObject, fr: KeyValueObject)
    requires readDir("src") == [DirEntry("Greeting.en-US.properties", true),
                                DirEntry("Greeting.FR-CA.properties", true),
                                DirEntry("Greeting.ts", true)]
    requires loader("src/Greeting.en-US.properties") == Some(en)
    requires loader("src/Greeting.FR-CA.properties") == Some(fr)
    ensures var r := InjectedMessagesOf("src/Greeting.ts", "properties", readDir, loader);
      && r.Success? && r.value.keyValueObjectCollection.Keys == {"en-us", "fr-ca"}
      && GetMessages(Some(r.value), "EN-us") == Success(en)
      && GetMessages(Some(r.value), "de-DE") == Success(map[])
  {
    GreetingParse();
    GreetingCollect(loader, en, fr);
    GreetingLookup(en, fr);
  }
}
