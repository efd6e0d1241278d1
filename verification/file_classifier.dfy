/** A FileClassifier decides whether a file name has a classification (the
    class is meant for "ignored" and "critical" files; the analyzer itself
    repeats the same logic inline) from two rule lists: extensions, matched
    exactly against the text after the last `\`, `/` or `.`, and substrings,
    matched anywhere in the full name. */
module FileClassifier {
  import opened StringOps

  /** The two rule lists. New rules go to the front (std::list::push_front);
      there is no deduplication and no validation. */
  datatype Classifier = Classifier(extensions: seq<string>, substrings: seq<string>)

  /** A freshly constructed classifier: no rules at all. */
  const Empty: Classifier := Classifier([], [])

  /** The characters an extension starts after. */
  const Separators: set<char> := {'\\', '/', '.'}

  /** add_extension: `extension` becomes the first extension rule. */
  function AddExtension(c: Classifier, extension: string): (r: Classifier)
    ensures r.substrings == c.substrings
    ensures |r.extensions| == |c.extensions| + 1 && r.extensions[0] == extension
    ensures r.extensions[1..] == c.extensions
    ensures multiset(r.extensions) == multiset(c.extensions) + multiset{extension}
  {
    c.(extensions := [extension] + c.extensions)
  }

  /** add_substring: `substring` becomes the first substring rule. */
  function AddSubstring(c: Classifier, substring: string): (r: Classifier)
    ensures r.extensions == c.extensions
    ensures |r.substrings| == |c.substrings| + 1 && r.substrings[0] == substring
    ensures r.substrings[1..] == c.substrings
    ensures multiset(r.substrings) == multiset(c.substrings) + multiset{substring}
  {
    c.(substrings := [substring] + c.substrings)
  }

  /** The argument of `substr` once one is added to what find_last_of
      returned. When nothing was found, npos + 1 wraps around (size_t is
      unsigned) to 0, so the substring starts at the beginning. */
  function SubstrStart(found: Option<nat>): (start: nat) {
    match found
    case None => 0
    case Some(k) => k + 1
  }

  /** The extension of a file name: its suffix after the last separator,
      the whole name when there is no separator, and empty when the name
      ends in a separator. */
  function Extension(name: string): (ext: string)
    ensures |ext| <= |name| && ext == name[|name| - |ext|..]
    ensures forall i :: 0 <= i < |ext| ==> ext[i] !in Separators
    ensures |ext| < |name| ==> name[|name| - |ext| - 1] in Separators
  {
    name[SubstrStart(FindLastOf(name, Separators))..]
  }

  /** Some substring rule occurs in `name`. */
  predicate SubstringRuleMatches(c: Classifier, name: string) {
    exists s :: s in c.substrings && Contains(name, s)
  }

  /** Some extension rule equals the extension of `name`. */
  predicate ExtensionRuleMatches(c: Classifier, name: string) {
    Extension(name) in c.extensions
  }

  /** The classification, stated as "there is a rule such that ...". */
  predicate Satisfies(c: Classifier, name: string) {
    SubstringRuleMatches(c, name) || ExtensionRuleMatches(c, name)
  }

  /** satisfies: scan the substring rules, then the extension rules, and
      stop at the first match. */
  method SatisfiesLoop(c: Classifier, name: string) returns (b: bool)
    ensures b <==> Satisfies(c, name)
  {
    var i := 0;
    while i < |c.substrings|
      invariant 0 <= i <= |c.substrings|
      invariant forall j :: 0 <= j < i ==> !Contains(name, c.substrings[j])
    {
      var found := Find(name, c.substrings[i]);
      if found.Some? {
        return true;
      }
      i := i + 1;
    }

    var extension := name[SubstrStart(FindLastOf(name, Separators))..];

    var k := 0;
    while k < |c.extensions|
      invariant 0 <= k <= |c.extensions|
      invariant forall j :: 0 <= j < k ==> c.extensions[j] != extension
    {
      if extension == c.extensions[k] {
        return true;
      }
      k := k + 1;
    }
    return false;
  }
}
