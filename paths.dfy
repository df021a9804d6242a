/** `Entry.normalizeSrc` (src/index.js:51-53, src/-entry/index.js:30-32): a source
    path is made relative to the working directory when it is absolute, and its
    platform separators are replaced with `/`. The operating system's part (what is
    absolute, how a path is made relative, which separator it uses) is a parameter. */
module Paths {

  /** The platform: `path.sep`, `path.isAbsolute`, and `path.relative(cwd, ·)`. */
  datatype PathPolicy = PathPolicy(sep: char, isAbsolute: string -> bool, relative: string -> string)

  /** `p.split(sep).join('/')`. */
  function ToSlashes(p: string, sep: char): (r: string)
    ensures |r| == |p|
    ensures forall i :: 0 <= i < |p| ==> r[i] == if p[i] == sep then '/' else p[i]
  {
    if p == [] then [] else ToSlashes(p[..|p| - 1], sep) + [if p[|p| - 1] == sep then '/' else p[|p| - 1]]
  }

  function Normalize(policy: PathPolicy, src: string): string
  {
    ToSlashes(if policy.isAbsolute(src) then policy.relative(src) else src, policy.sep)
  }

  /** After replacement no separator is left, unless the separator is `/` itself. */
  lemma SlashesOnly(p: string, sep: char)
    ensures sep != '/' ==> sep !in ToSlashes(p, sep)
    ensures sep == '/' ==> ToSlashes(p, sep) == p
  {
  }

  /** For a relative path (one that stays relative once its separators are
      replaced) normalising twice is normalising once. */
  lemma NormalizeIdempotent(policy: PathPolicy, src: string)
    requires !policy.isAbsolute(src)
    requires !policy.isAbsolute(ToSlashes(src, policy.sep))
    ensures Normalize(policy, Normalize(policy, src)) == Normalize(policy, src)
  {
    var once := ToSlashes(src, policy.sep);
    assert ToSlashes(once, policy.sep) == once;
  }
}
