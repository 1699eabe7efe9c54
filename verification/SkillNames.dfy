/**
  Names under which skills are mounted: kebab-case slugs, made unique within a role
  by the first free numeric suffix.
 */
module SkillNames {
  type Name = string

  predicate IsPlain(c: char) { 'a' <= c <= 'z' || '0' <= c <= '9' }

  /** ASCII kebab-case: words of lower-case letters and digits joined by single dashes. */
  ghost predicate IsKebab(s: string) {
    && (forall i :: 0 <= i < |s| ==> IsPlain(s[i]) || s[i] == '-')
    && (s != "" ==> s[0] != '-' && s[|s| - 1] != '-')
    && (forall i :: 0 < i < |s| ==> !(s[i - 1] == '-' && s[i] == '-'))
  }

  /** One character of a lower-cased name. */
  function Extended(out: string, c: char): string {
    if IsPlain(c) then out + [c]
    else if out != "" && out[|out| - 1] != '-' then out + ['-']
    else out
  }

  function Folded(raw: string): string {
    if raw == "" then "" else Extended(Folded(raw[..|raw| - 1]), raw[|raw| - 1])
  }

  function TrimmedEnd(s: string): string {
    if s != "" && s[|s| - 1] == '-' then TrimmedEnd(s[..|s| - 1]) else s
  }

  function TrimmedStart(s: string): string {
    if s != "" && s[0] == '-' then TrimmedStart(s[1..]) else s
  }

  function Slug(raw: string): string { TrimmedEnd(TrimmedStart(Folded(raw))) }

  /** The loop over the characters of a lower-cased name. */
  method SlugSkillName(raw: string) returns (slug: string)
    ensures slug == Slug(raw) && IsKebab(slug)
  {
    var out, lastDash := "", false;
    for i := 0 to |raw|
      invariant out == Folded(raw[..i])
      invariant lastDash <==> out != "" && out[|out| - 1] == '-'
    {
      assert raw[..i + 1][..i] == raw[..i];
      if IsPlain(raw[i]) {
        out, lastDash := out + [raw[i]], false;
      } else if |out| > 0 && !lastDash {
        out, lastDash := out + ['-'], true;
      }
    }
    assert raw[..|raw|] == raw;
    slug := TrimmedEnd(TrimmedStart(out));
    SlugIsKebab(raw);
  }

  /** Kebab-case but for one dash that may still stand at the end. */
  ghost predicate IsOpenKebab(s: string) {
    && (forall i :: 0 <= i < |s| ==> IsPlain(s[i]) || s[i] == '-')
    && (s != "" ==> s[0] != '-')
    && (forall i :: 0 < i < |s| ==> !(s[i - 1] == '-' && s[i] == '-'))
  }

  lemma {:induction false} FoldedIsOpenKebab(raw: string)
    ensures IsOpenKebab(Folded(raw))
    decreases |raw|
  {
    if raw != "" {
      FoldedIsOpenKebab(raw[..|raw| - 1]);
    }
  }

  lemma SlugIsKebab(raw: string)
    ensures IsKebab(Slug(raw))
  {
    FoldedIsOpenKebab(raw);
    var s := Folded(raw);
    if s != "" && s[|s| - 1] == '-' {
      var t := s[..|s| - 1];
      assert |t| > 0 && t[|t| - 1] == s[|s| - 2] && t[|t| - 1] != '-';
      assert TrimmedEnd(t) == t;
      assert TrimmedEnd(s) == t && TrimmedStart(s) == s;
    }
  }

  lemma {:induction false} KebabFoldsToItself(s: string)
    requires IsOpenKebab(s)
    ensures Folded(s) == s
    decreases |s|
  {
    if s != "" {
      KebabFoldsToItself(s[..|s| - 1]);
      assert s == s[..|s| - 1] + [s[|s| - 1]];
      if |s| > 1 {
        assert s[..|s| - 1][|s| - 2] == s[|s| - 2];
      }
    }
  }

  /** A name equals its own slug exactly when it is kebab-case. */
  lemma OwnSlugExactly(s: string)
    ensures Slug(s) == s <==> IsKebab(s)
  {
    if IsKebab(s) {
      KebabFoldsToItself(s);
    }
    SlugIsKebab(s);
  }

  lemma SlugIsStable(raw: string)
    ensures Slug(Slug(raw)) == Slug(raw)
  {
    SlugIsKebab(raw);
    OwnSlugExactly(Slug(raw));
  }

  // ---- Unique names ----

  function Decimal(n: nat): (digits: string)
    ensures digits != ""
  {
    (if n < 10 then "" else Decimal(n / 10)) + [('0' as int + n % 10) as char]
  }

  lemma {:induction false} DecimalIsInjective(m: nat, n: nat)
    requires Decimal(m) == Decimal(n)
    ensures m == n
    decreases m
  {
    var a, b := Decimal(m), Decimal(n);
    assert a[|a| - 1] == b[|b| - 1];
    assert m % 10 == n % 10;
    assert a[..|a| - 1] == if m < 10 then "" else Decimal(m / 10);
    assert b[..|b| - 1] == if n < 10 then "" else Decimal(n / 10);
    if m >= 10 && n >= 10 {
      DecimalIsInjective(m / 10, n / 10);
    }
  }

  function Suffixed(slug: string, i: nat): Name { slug + "-" + Decimal(i) }

  lemma SuffixesDiffer(slug: string, i: nat, j: nat)
    requires Suffixed(slug, i) == Suffixed(slug, j)
    ensures i == j
  {
    assert Suffixed(slug, i)[|slug| + 1..] == Decimal(i);
    assert Suffixed(slug, j)[|slug| + 1..] == Decimal(j);
    DecimalIsInjective(i, j);
  }

  ghost predicate HasSuffixFrom(name: Name, slug: string, i: nat) {
    exists j: nat :: i <= j && name == Suffixed(slug, j)
  }

  /** The taken names a search from suffix `i` on could still meet. */
  ghost function Ahead(slug: string, used: set<Name>, i: nat): set<Name> {
    set name | name in used && HasSuffixFrom(name, slug, i)
  }

  lemma SearchAdvances(slug: string, used: set<Name>, i: nat)
    requires Suffixed(slug, i) in used
    ensures |Ahead(slug, used, i + 1)| < |Ahead(slug, used, i)|
  {
    var now, next := Ahead(slug, used, i), Ahead(slug, used, i + 1);
    var name := Suffixed(slug, i);
    assert HasSuffixFrom(name, slug, i);
    if name in next {
      var j: nat :| i + 1 <= j && name == Suffixed(slug, j);
      SuffixesDiffer(slug, i, j);
    }
    assert next <= now - {name};
    SubsetIsSmaller(next, now - {name});
  }

  lemma {:induction false} SubsetIsSmaller(a: set<Name>, b: set<Name>)
    requires a <= b
    ensures |a| <= |b|
    decreases |a|
  {
    if a != {} {
      var x :| x in a;
      SubsetIsSmaller(a - {x}, b - {x});
    }
  }

  /** The first free suffix from `i` on. */
  function FirstFree(slug: string, used: set<Name>, i: nat): (name: Name)
    ensures name !in used
    decreases |Ahead(slug, used, i)|
  {
    if Suffixed(slug, i) !in used then Suffixed(slug, i)
    else
      SearchAdvances(slug, used, i);
      FirstFree(slug, used, i + 1)
  }

  function Unique(slug: string, used: set<Name>): (name: Name)
    ensures name !in used
  {
    var base := if slug == "" then "skill" else slug;
    if base !in used then base else FirstFree(base, used, 2)
  }

  /** The search for a free name: it ends, and takes the smallest suffix that is free. */
  method UniqueSkillSlug(slug: string, used: set<Name>) returns (name: Name)
    ensures name == Unique(slug, used)
    ensures
      var base := if slug == "" then "skill" else slug;
      || name == base
      || exists i: nat :: 2 <= i && name == Suffixed(base, i) && base in used &&
           forall k: nat :: 2 <= k < i ==> Suffixed(base, k) in used
  {
    var base := if slug == "" then "skill" else slug;
    name := base;
    var i := 2;
    if name !in used { return; }
    name := Suffixed(base, i);
    while name in used
      invariant 2 <= i && name == Suffixed(base, i) && base in used
      invariant forall k: nat :: 2 <= k < i ==> Suffixed(base, k) in used
      invariant FirstFree(base, used, 2) == FirstFree(base, used, i)
      decreases |Ahead(base, used, i)|
    {
      SearchAdvances(base, used, i);
      i := i + 1;
      name := Suffixed(base, i);
    }
  }
}
