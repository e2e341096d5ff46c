/** The page-name normaliser (`clean_page_name`): a leading `AP-` or `PR-`
    stage prefix is moved to the end as ` -AP` or ` -PR`; any other name is
    only trimmed. The prefix test is the regular expression `^(AP|PR)-(.+)`:
    case-sensitive, and `.+` needs at least one character before the first
    line break and stops there. */
module PageName {
  import opened Strings

  const StagePrefixes: set<string> := {"AP", "PR"}

  /** `re.match(r'^(AP|PR)-(.+)', name)` succeeds. */
  predicate HasStagePrefix(name: string) {
    |name| >= 4 && name[..2] in StagePrefixes && name[2] == '-' && name[3] != '\n'
  }

  /** The text captured by `(.+)`: everything after the prefix up to the
      first line break. */
  function PrefixRest(name: string): (rest: string)
    requires HasStagePrefix(name)
    ensures |rest| >= 1 && '\n' !in rest
    ensures OccursAt(name, rest, 3)
    ensures 3 + |rest| < |name| ==> name[3 + |rest|] == '\n'
  {
    var tail := name[3..];
    var k := IndexOf(tail, '\n');
    assert name[3..3 + k] == tail[..k];
    tail[..k]
  }

  /** `clean_page_name(name)`. */
  function CleanPageName(name: string): (r: string)
    ensures !HasStagePrefix(name) ==> r == Strip(name)
    ensures HasStagePrefix(name) ==> |r| >= 4 && r[|r| - 4..] == " -" + name[..2]
  {
    if HasStagePrefix(name) then Strip(PrefixRest(name)) + " -" + name[..2]
    else Strip(name)
  }

  /** A prefixed single-line name: the prefix ends up after the trimmed rest. */
  lemma CleanMovesPrefix(prefix: string, rest: string)
    requires prefix in StagePrefixes
    requires |rest| >= 1 && '\n' !in rest
    ensures CleanPageName(prefix + "-" + rest) == Strip(rest) + " -" + prefix
  {
    var name := prefix + "-" + rest;
    assert name[..2] == prefix && name[2] == '-' && name[3..] == rest;
    assert name[3] == rest[0] && rest[0] in rest;
    assert HasStagePrefix(name);
    var k := IndexOf(rest, '\n');
    assert k == |rest|;
    assert PrefixRest(name) == rest;
  }

  /** A trimmed name without a stage prefix comes back unchanged, so names
      that already carry the suffix form, such as "PAGE1 -AP", are fixed
      points. */
  lemma CleanFixedPoint(name: string)
    requires Strip(name) == name && !HasStagePrefix(name)
    ensures CleanPageName(name) == name
  {
  }

  /** Normalising a second time changes nothing, unless the first result
      starts with whitespace (the moved text was blank) or with a stage
      token of its own. */
  lemma CleanIdempotent(name: string)
    requires var r := CleanPageName(name); r == "" || (!IsSpace(r[0]) && !(|r| >= 3 && r[..2] in StagePrefixes && r[2] == '-'))
    ensures CleanPageName(CleanPageName(name)) == CleanPageName(name)
  {
    var r := CleanPageName(name);
    if HasStagePrefix(name) {
      assert r[|r| - 4..] == " -" + name[..2];
      assert r[|r| - 1] == name[1];
    }
    StripFixedPoint(r);
  }

  /** The inverse rewrite: a trailing ` -AP` or ` -PR` goes back to the front. */
  function RestorePrefix(r: string): string {
    if |r| >= 4 && r[|r| - 4..|r| - 2] == " -" && r[|r| - 2..] in StagePrefixes
    then r[|r| - 2..] + "-" + r[..|r| - 4]
    else r
  }

  /** Moving the prefix loses nothing: for a trimmed single-line rest, the
      original name can be rebuilt from the normalised one. */
  lemma RestoreAfterClean(prefix: string, rest: string)
    requires prefix in StagePrefixes
    requires |rest| >= 1 && '\n' !in rest && Strip(rest) == rest
    ensures RestorePrefix(CleanPageName(prefix + "-" + rest)) == prefix + "-" + rest
  {
    CleanMovesPrefix(prefix, rest);
    var r := rest + " -" + prefix;
    assert r[|r| - 2..] == prefix && r[..|r| - 4] == rest;
  }
}
