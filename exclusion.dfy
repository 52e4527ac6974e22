/** The exclusion policy for build, version-control and IDE directories
    (`should_ignore_dir` in tree.py). */
module Exclusion {

  /** Directory names that are skipped when build exclusion is on. */
  const IgnoredDirs: set<string> := {"build", ".git", ".vscode", "out", "bin", "obj"}

  /** Name prefix of CMake's per-configuration build directories. */
  const CMakeBuildPrefix: string := "cmake-build"

  /** Whether a directory called `name` is left out of the tree and of the
      file walks. The checks are made in the source's order: flag, fixed
      set, then prefix. */
  predicate ShouldIgnoreDir(name: string, excludeBuild: bool) {
    if !excludeBuild then false
    else if name in IgnoredDirs then true
    else if CMakeBuildPrefix <= name then true
    else false
  }

  /** With the flag off nothing is ever excluded. */
  lemma NothingIgnoredWithoutFlag(name: string)
    ensures !ShouldIgnoreDir(name, false)
  {
  }

  /** With the flag on, exactly the six fixed names and the names that
      start with `cmake-build` are excluded (case-sensitively). */
  lemma IgnoredExactly(name: string)
    ensures ShouldIgnoreDir(name, true) <==>
            name in {"build", ".git", ".vscode", "out", "bin", "obj"} ||
            (|name| >= 11 && name[..11] == "cmake-build")
  {
  }

  /** A few names as the policy sees them: a configuration build directory
      is excluded, a differently-cased `Build` and a source directory are not. */
  lemma IgnoreExamples()
    ensures ShouldIgnoreDir("cmake-build-debug", true)
    ensures ShouldIgnoreDir("cmake-build", true)
    ensures !ShouldIgnoreDir("Build", true)
    ensures !ShouldIgnoreDir("src", true)
    ensures !ShouldIgnoreDir("cmake", true)
  {
  }
}
