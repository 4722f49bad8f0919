/** The frontend's three-way comparators. Metiers, competences, skills and
    jobs are all records holding a name, and each helper module compares
    two of them by name alone: -1 when the first name sorts before the
    second, 0 when the names are equal and 1 otherwise. Names are ordered
    as JavaScript's `<` orders strings: character by character, a proper
    prefix first. */
module Comparators {

  /** JavaScript's `<` on strings. */
  predicate LexLess(a: string, b: string)
  {
    if a == [] then b != []
    else b != [] && (a[0] < b[0] || (a[0] == b[0] && LexLess(a[1..], b[1..])))
  }

  lemma {:induction false} LexLessIrreflexive(a: string)
    ensures !LexLess(a, a)
  {
    if a != [] {
      LexLessIrreflexive(a[1..]);
    }
  }

  /** Exactly one of a < b, a == b, b < a holds. */
  lemma {:induction false} LexLessTrichotomy(a: string, b: string)
    ensures LexLess(a, b) || a == b || LexLess(b, a)
    ensures !(LexLess(a, b) && LexLess(b, a))
  {
    if a != [] && b != [] {
      LexLessTrichotomy(a[1..], b[1..]);
      if a[0] == b[0] && a[1..] == b[1..] {
        assert a == [a[0]] + a[1..] && b == [b[0]] + b[1..];
      }
    }
  }

  lemma {:induction false} LexLessTransitive(a: string, b: string, c: string)
    requires LexLess(a, b) && LexLess(b, c)
    ensures LexLess(a, c)
  {
    if a != [] && a[0] == b[0] && b[0] == c[0] {
      LexLessTransitive(a[1..], b[1..], c[1..]);
    }
  }

  /** The empty name sorts before every other name. */
  lemma EmptyLeast(a: string)
    ensures a == [] || LexLess([], a)
  {
  }

  /** A record that holds a name. `Metier`, `Competence`, `Skill` and `Job`
      are all of this shape. */
  datatype Named = Named(name: string)

  type Metier = Named
  type Competence = Named
  type Skill = Named
  type Job = Named

  /** The record defaults: `Metier()` and `competence()` have the name "". */
  const DefaultMetier: Metier := Named("")
  const DefaultCompetence: Competence := Named("")

  /** `lessThan` of the Metiers, Competences, Skills and Jobs helpers. */
  function LessThan(c1: Named, c2: Named): (r: int)
    ensures r == -1 <==> LexLess(c1.name, c2.name)
    ensures r == 0 <==> c1.name == c2.name
    ensures r == 1 <==> LexLess(c2.name, c1.name)
  {
    LexLessTrichotomy(c1.name, c2.name);
    LexLessIrreflexive(c1.name);
    if LexLess(c1.name, c2.name) then -1
    else if c1.name == c2.name then 0
    else 1
  }

  /** The comparator is antisymmetric, and 0 exactly on equal records. */
  lemma LessThanAntisymmetric(a: Named, b: Named)
    ensures LessThan(a, b) == -LessThan(b, a)
    ensures LessThan(a, b) == 0 <==> a == b
    ensures LessThan(a, a) == 0
  {
  }

  /** The order it induces is transitive, so it sorts. */
  lemma LessThanTransitive(a: Named, b: Named, c: Named)
    requires LessThan(a, b) == -1 && LessThan(b, c) == -1
    ensures LessThan(a, c) == -1
  {
    LexLessTransitive(a.name, b.name, c.name);
  }

  /** The default metier and competence sort first. */
  lemma DefaultsSortFirst(m: Named)
    ensures LessThan(DefaultMetier, m) <= 0 && LessThan(DefaultCompetence, m) <= 0
  {
    EmptyLeast(m.name);
  }

  /** A scored metier suggestion; its default is `DefaultMetier` scored 0. */
  datatype MetierSuggestion = MetierSuggestion(metier: Metier, score: real)

  const DefaultSuggestion: MetierSuggestion := MetierSuggestion(DefaultMetier, 0.0)

  /** `lessThanScore`: the same three-way comparison on the score. */
  function LessThanScore(c1: MetierSuggestion, c2: MetierSuggestion): (r: int)
    ensures r == -1 <==> c1.score < c2.score
    ensures r == 0 <==> c1.score == c2.score
    ensures r == 1 <==> c2.score < c1.score
  {
    if c1.score < c2.score then -1
    else if c1.score == c2.score then 0
    else 1
  }

  lemma LessThanScoreAntisymmetric(a: MetierSuggestion, b: MetierSuggestion)
    ensures LessThanScore(a, b) == -LessThanScore(b, a)
    ensures LessThanScore(a, a) == 0
  {
  }
}
