/**
 The section registry: the closed enumeration of landing-page regions (types.ts).
 At run time each member is the string it is declared with, and every rendered
 section carries that string as its element id.
 */
module Sections {
  import opened Wrappers

  /** The five landing-page regions, in declaration order. */
  datatype SectionId = Home | About | Skills | Projects | Others

  /** The string value the enum member carries at run time: a non-empty lower-case word, usable as an element id. */
  function Value(id: SectionId): (r: string)
    ensures |r| > 0
    ensures forall k :: 0 <= k < |r| ==> 'a' <= r[k] <= 'z'
  {
    match id
    case Home => "home"
    case About => "about"
    case Skills => "skills"
    case Projects => "projects"
    case Others => "others"
  }

  /** Reads a run-time string back as a section: defined exactly on the five values, and inverse to `Value` there. */
  function Parse(s: string): (r: Option<SectionId>)
    ensures r.Some? ==> Value(r.value) == s
    ensures r.None? ==> forall id: SectionId :: Value(id) != s
  {
    if s == "home" then Some(Home)
    else if s == "about" then Some(About)
    else if s == "skills" then Some(Skills)
    else if s == "projects" then Some(Projects)
    else if s == "others" then Some(Others)
    else None
  }

  /** True iff `s` is the run-time value of some section, i.e. the `as SectionId` cast of `s` is sound. */
  predicate IsSectionValue(s: string)
  {
    Parse(s).Some?
  }

  /** Converting a section to its string and back gives the section. */
  lemma ParseValue(id: SectionId)
    ensures Parse(Value(id)) == Some(id)
  {
  }

  /** The five string values are pairwise distinct. */
  lemma ValueInjective(a: SectionId, b: SectionId)
    requires Value(a) == Value(b)
    ensures a == b
  {
  }

  /** The zero-based position at which a member is declared in the enum. */
  function Ordinal(id: SectionId): nat
  {
    match id
    case Home => 0
    case About => 1
    case Skills => 2
    case Projects => 3
    case Others => 4
  }

  /** `Object.values(SectionId)`: the registry of sections, every member exactly once and each at its declaration position. */
  function Registry(): (r: seq<SectionId>)
    ensures |r| == 5
    ensures forall id: SectionId :: Ordinal(id) < |r| && r[Ordinal(id)] == id
    ensures forall i, j :: 0 <= i < j < |r| ==> r[i] != r[j]
  {
    [Home, About, Skills, Projects, Others]
  }
}
