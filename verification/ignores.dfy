/** `src/ignores.js`: which directory entries the tree leaves out. Directories
    are left out by a name rule and by the ignore globs; files by their
    extension, by being the readme, and by the ignore globs. Glob matching
    and path joining are the platform's. */
module Ignores {
  import opened Text
  import opened Collaborators
  import opened OptionsParser

  /** `shouldIgnoreDirectoryBasedOnName`: hidden ("."), private ("_") and
      `node_modules` directories, unless every directory is included. */
  predicate ShouldIgnoreDirectoryBasedOnName(name: string, options: Options) {
    if options.includeAllDirectoriesByDefault then false
    else StartsWith(name, ".") || StartsWith(name, "_") || name == "node_modules"
  }

  /** The loop of `shouldIgnoreBasedOnGlobs`: whether some glob matches. */
  function AnyGlobMatches(path: string, globs: seq<string>, platform: Platform): (found: bool)
    ensures found <==> exists k :: 0 <= k < |globs| && platform.globMatches(path, globs[k])
    decreases |globs|
  {
    if globs == [] then false
    else if platform.globMatches(path, globs[0]) then true
    else
      var found := AnyGlobMatches(path, globs[1..], platform);
      assert forall k :: 1 <= k < |globs| ==> globs[k] == globs[1..][k - 1];
      found
  }

  /** `shouldIgnoreBasedOnGlobs`: some ignore glob matches the entry's path
      relative to the notes root. */
  predicate ShouldIgnoreBasedOnGlobs(name: string, relativeParentPath: string, options: Options, platform: Platform) {
    AnyGlobMatches(platform.join(relativeParentPath, name), options.ignore, platform)
  }

  /** `shouldIgnoreDirectory`: the name rule, then the globs. */
  function ShouldIgnoreDirectory(name: string, relativeParentPath: string, options: Options, platform: Platform)
    : (ignored: bool)
    ensures ignored <==> ShouldIgnoreDirectoryBasedOnName(name, options)
                         || GlobMatchesEntry(name, relativeParentPath, options, platform)
  {
    ShouldIgnoreDirectoryBasedOnName(name, options) || ShouldIgnoreBasedOnGlobs(name, relativeParentPath, options, platform)
  }

  /** `shouldIgnoreFile`: anything but a Markdown file, the readme itself,
      and whatever a glob matches. */
  function ShouldIgnoreFile(name: string, relativeParentPath: string, options: Options, platform: Platform)
    : (ignored: bool)
    ensures ignored <==> !EndsWith(name, ".md") || name == options.readmeFilename
                         || GlobMatchesEntry(name, relativeParentPath, options, platform)
  {
    !EndsWith(name, ".md") || name == options.readmeFilename
    || ShouldIgnoreBasedOnGlobs(name, relativeParentPath, options, platform)
  }

  /** Some glob of the options matches the entry's joined path. */
  predicate GlobMatchesEntry(name: string, relativeParentPath: string, options: Options, platform: Platform) {
    exists k :: 0 <= k < |options.ignore| && platform.globMatches(platform.join(relativeParentPath, name), options.ignore[k])
  }

  // ---------------------------------------------------------------- lemmas

  /** Without include-all, a hidden, private or `node_modules` directory is
      left out, and any other directory is left out exactly when a glob
      matches it. */
  lemma DirectoryNameRule(name: string, relativeParentPath: string, options: Options, platform: Platform)
    requires !options.includeAllDirectoriesByDefault
    ensures StartsWith(name, ".") || StartsWith(name, "_") || name == "node_modules" ==>
      ShouldIgnoreDirectory(name, relativeParentPath, options, platform)
    ensures !(StartsWith(name, ".") || StartsWith(name, "_") || name == "node_modules") ==>
      (ShouldIgnoreDirectory(name, relativeParentPath, options, platform) <==>
       GlobMatchesEntry(name, relativeParentPath, options, platform))
  {
  }

  /** With include-all, the name rule never applies: only the globs decide. */
  lemma IncludeAllLeavesOnlyGlobs(name: string, relativeParentPath: string, options: Options, platform: Platform)
    requires options.includeAllDirectoriesByDefault
    ensures ShouldIgnoreDirectory(name, relativeParentPath, options, platform)
        <==> GlobMatchesEntry(name, relativeParentPath, options, platform)
  {
  }

  /** A matching glob leaves out directories and files alike, whatever the
      include-all flag says. */
  lemma GlobAlwaysWins(name: string, relativeParentPath: string, options: Options, platform: Platform)
    requires GlobMatchesEntry(name, relativeParentPath, options, platform)
    ensures ShouldIgnoreDirectory(name, relativeParentPath, options, platform)
    ensures ShouldIgnoreFile(name, relativeParentPath, options, platform)
  {
  }

  /** A file is kept exactly when it is a Markdown file other than the
      readme that no glob matches; so with no globs, exactly the Markdown
      files other than the readme are kept. */
  lemma FileRule(name: string, relativeParentPath: string, options: Options, platform: Platform)
    ensures !ShouldIgnoreFile(name, relativeParentPath, options, platform)
        <==> EndsWith(name, ".md") && name != options.readmeFilename
             && !GlobMatchesEntry(name, relativeParentPath, options, platform)
    ensures options.ignore == [] ==>
      (!ShouldIgnoreFile(name, relativeParentPath, options, platform) <==>
       EndsWith(name, ".md") && name != options.readmeFilename)
  {
  }

  /** Adding globs never brings an entry back: whatever fewer globs leave
      out, more globs leave out too. */
  lemma MoreGlobsIgnoreMore(name: string, relativeParentPath: string, options: Options, more: seq<string>,
                            platform: Platform)
    requires forall k :: 0 <= k < |options.ignore| ==> options.ignore[k] in more
    ensures ShouldIgnoreDirectory(name, relativeParentPath, options, platform) ==>
      ShouldIgnoreDirectory(name, relativeParentPath, options.(ignore := more), platform)
    ensures ShouldIgnoreFile(name, relativeParentPath, options, platform) ==>
      ShouldIgnoreFile(name, relativeParentPath, options.(ignore := more), platform)
  {
    var widened := options.(ignore := more);
    if GlobMatchesEntry(name, relativeParentPath, options, platform) {
      GlobStillMatches(name, relativeParentPath, options, more, platform);
    }
    assert ShouldIgnoreDirectoryBasedOnName(name, widened) == ShouldIgnoreDirectoryBasedOnName(name, options);
    assert widened.readmeFilename == options.readmeFilename;
  }

  /** A glob that matches still matches once it sits in a longer list. */
  lemma GlobStillMatches(name: string, relativeParentPath: string, options: Options, more: seq<string>,
                         platform: Platform)
    requires forall k :: 0 <= k < |options.ignore| ==> options.ignore[k] in more
    requires GlobMatchesEntry(name, relativeParentPath, options, platform)
    ensures GlobMatchesEntry(name, relativeParentPath, options.(ignore := more), platform)
  {
    var path := platform.join(relativeParentPath, name);
    var k :| 0 <= k < |options.ignore| && platform.globMatches(path, options.ignore[k]);
    var j :| 0 <= j < |more| && more[j] == options.ignore[k];
    assert platform.globMatches(path, more[j]);
  }
}
