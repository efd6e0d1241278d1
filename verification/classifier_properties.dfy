/** What the classifier promises: the extension is exactly the text after
    the last separator, the verdict is "some rule matches" and nothing else,
    adding a rule only ever widens the classification, and the verdict
    depends on the set of rules, not on their order or repetition. */
module ClassifierProperties {
  import opened StringOps
  import opened FileClassifier

  /** Independent reference for the extension: `ext` is a suffix of `name`
      holding no separator, and it is either all of `name` or is preceded
      by a separator. */
  predicate IsTextAfterLastSeparator(name: string, ext: string) {
    && |ext| <= |name|
    && ext == name[|name| - |ext|..]
    && (forall i :: 0 <= i < |ext| ==> ext[i] !in Separators)
    && (|ext| < |name| ==> name[|name| - |ext| - 1] in Separators)
  }

  /** The set of rules a list holds, forgetting order and repetition. */
  function Rules(xs: seq<string>): (rules: set<string>) {
    set x | x in xs
  }

  /** The extension is the one and only suffix after the last separator. */
  lemma ExtensionCharacterization(name: string, ext: string)
    ensures IsTextAfterLastSeparator(name, ext) <==> ext == Extension(name)
  {
  }

  /** A name without `\`, `/` or `.` is its own extension, and only such a
      name is. */
  lemma ExtensionIsWholeName(name: string)
    ensures Extension(name) == name <==> forall i :: 0 <= i < |name| ==> name[i] !in Separators
  {
  }

  /** The extension is empty exactly when the name is empty or ends in a
      separator. */
  lemma ExtensionIsEmpty(name: string)
    ensures Extension(name) == [] <==> |name| == 0 || name[|name| - 1] in Separators
  {
  }

  /** With no rules at all, no name has the classification. */
  lemma EmptyClassifierMatchesNothing(name: string)
    ensures !Satisfies(Empty, name)
  {
  }

  /** A substring rule matches wherever it occurs, path separators included,
      so a rule such as "/tmp/" selects a whole directory. */
  lemma SubstringRuleMatchesAnywhere(c: Classifier, name: string, s: string, i: nat)
    requires s in c.substrings
    requires OccursAt(s, name, i)
    ensures Satisfies(c, name)
  {
  }

  /** An empty substring rule matches every name, the empty name included. */
  lemma EmptySubstringRuleMatchesAll(c: Classifier, name: string)
    requires [] in c.substrings
    ensures Satisfies(c, name)
  {
    assert OccursAt([], name, 0);
    assert Contains(name, []);
  }

  /** An empty extension rule matches every name that is empty or ends in
      `\`, `/` or `.`. */
  lemma EmptyExtensionRuleMatches(c: Classifier, name: string)
    requires [] in c.extensions
    requires |name| == 0 || name[|name| - 1] in Separators
    ensures Satisfies(c, name)
  {
  }

  /** After add_extension(e) a name has the classification exactly when it
      had it before or its extension is e. */
  lemma AddExtensionVerdict(c: Classifier, e: string, name: string)
    ensures Satisfies(AddExtension(c, e), name) <==> Satisfies(c, name) || Extension(name) == e
  {
  }

  /** After add_substring(s) a name has the classification exactly when it
      had it before or it contains s. */
  lemma AddSubstringVerdict(c: Classifier, s: string, name: string)
    ensures Satisfies(AddSubstring(c, s), name) <==> Satisfies(c, name) || Contains(name, s)
  {
  }

  /** Adding a rule of either kind never takes the classification away. */
  lemma AddRuleIsMonotone(c: Classifier, rule: string, name: string)
    requires Satisfies(c, name)
    ensures Satisfies(AddExtension(c, rule), name)
    ensures Satisfies(AddSubstring(c, rule), name)
  {
  }

  /** The verdict depends only on which rules are present: two classifiers
      with the same rule sets agree on every name, however their lists are
      ordered and however often a rule repeats. */
  lemma SameRulesSameVerdict(c1: Classifier, c2: Classifier, name: string)
    requires Rules(c1.extensions) == Rules(c2.extensions)
    requires Rules(c1.substrings) == Rules(c2.substrings)
    ensures Satisfies(c1, name) <==> Satisfies(c2, name)
  {
    assert forall x :: x in c1.extensions <==> x in Rules(c1.extensions);
    assert forall x :: x in c2.extensions <==> x in Rules(c2.extensions);
    assert forall x :: x in c1.substrings <==> x in Rules(c1.substrings);
    assert forall x :: x in c2.substrings <==> x in Rules(c2.substrings);
  }

  /** Each add operation grows its own rule set by exactly the new rule
      and leaves the other rule set as it was. */
  lemma AddRuleSets(c: Classifier, rule: string)
    ensures Rules(AddExtension(c, rule).extensions) == {rule} + Rules(c.extensions)
    ensures Rules(AddExtension(c, rule).substrings) == Rules(c.substrings)
    ensures Rules(AddSubstring(c, rule).substrings) == {rule} + Rules(c.substrings)
    ensures Rules(AddSubstring(c, rule).extensions) == Rules(c.extensions)
  {
  }

  /** Adding two extension rules in either order yields the same
      classification. */
  lemma ExtensionInsertionOrderIrrelevant(c: Classifier, e1: string, e2: string, name: string)
    ensures Satisfies(AddExtension(AddExtension(c, e1), e2), name)
        <==> Satisfies(AddExtension(AddExtension(c, e2), e1), name)
  {
  }

  /** Adding two substring rules in either order yields the same
      classification. */
  lemma SubstringInsertionOrderIrrelevant(c: Classifier, s1: string, s2: string, name: string)
    ensures Satisfies(AddSubstring(AddSubstring(c, s1), s2), name)
        <==> Satisfies(AddSubstring(AddSubstring(c, s2), s1), name)
  {
  }

  /** Adding a rule that is already present changes nothing. */
  lemma DuplicateRuleIrrelevant(c: Classifier, rule: string, name: string)
    ensures rule in c.extensions ==> (Satisfies(AddExtension(c, rule), name) <==> Satisfies(c, name))
    ensures rule in c.substrings ==> (Satisfies(AddSubstring(c, rule), name) <==> Satisfies(c, name))
  {
  }

  /** A critical-file classifier with the single extension rule "sh" flags
      a shell script under a home directory. */
  lemma ShellScriptIsCritical()
    ensures Satisfies(AddExtension(Empty, "sh"), "/home/alice/secrets.sh")
  {
    var name := "/home/alice/secrets.sh";
    assert IsTextAfterLastSeparator(name, "sh");
    ExtensionCharacterization(name, "sh");
  }

  /** Extension comparison is case-sensitive: "sh" does not match "SH". */
  lemma ExtensionMatchIsCaseSensitive()
    ensures !Satisfies(AddExtension(Empty, "sh"), "run.SH")
  {
  }

  /** Only the last separator counts: the extension of "archive.tar.gz" is
      "gz", of "C:\logs\" is empty, and of "Makefile" the whole name. */
  lemma ExtensionExamples()
    ensures Extension("archive.tar.gz") == "gz"
    ensures Extension("C:\\logs\\") == []
    ensures Extension("Makefile") == "Makefile"
  {
    assert IsTextAfterLastSeparator("archive.tar.gz", "gz");
    ExtensionCharacterization("archive.tar.gz", "gz");
    ExtensionIsEmpty("C:\\logs\\");
    ExtensionIsWholeName("Makefile");
  }

  /** An ignore rule "/tmp/" selects every file under any /tmp/ directory. */
  lemma TmpDirectoryIsIgnored()
    ensures Satisfies(AddSubstring(Empty, "/tmp/"), "/var/tmp/cache.db")
  {
    var name := "/var/tmp/cache.db";
    assert name == "/var" + "/tmp/" + "cache.db";
    assert name[4..9] == "/tmp/";
    SubstringRuleMatchesAnywhere(AddSubstring(Empty, "/tmp/"), name, "/tmp/", 4);
  }
}
