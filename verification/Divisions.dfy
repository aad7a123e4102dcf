/** What the patterns tell apart: the partition of the characters is no finer than that (the uses of ecs.c in parse.y
    and nfa.c). */
module Divisions {
  import opened Flexdef
  import opened Ccl
  import opened Nfa
  import opened Regex
  import Ecs

  /** Characters c and d are on the same list; NUL stands at csize. */
  ghost predicate OneList(bck: seq<int>, csize: int, c: int, d: int) {
    0 <= c < csize && 0 <= d < csize && Ecs.Same(bck, Ecs.MapNul(c, csize), Ecs.MapNul(d, csize))
  }

  /** The pattern tells the characters apart: one of them, and not the other, is a character of it or is listed in one
      of its bracket expressions. */
  ghost predicate Tells(re: Re, c: int, d: int) {
    match re
    case Char(x) => (c == x) != (d == x)
    case Any => (c == 10) != (d == 10)
    case Class(items, _) => InItems(items, c) != InItems(items, d)
    case Str(chars) => c != d && (c in chars || d in chars)
    case Seq(a, b) => Tells(a, c, d) || Tells(b, c, d)
    case Alt(a, b) => Tells(a, c, d) || Tells(b, c, d)
    case Closure(a) => Tells(a, c, d)
    case Positive(a) => Tells(a, c, d)
    case Optional(a) => Tells(a, c, d)
    case Iterate(a, _, _) => Tells(a, c, d)
    case IterateFrom(a, _) => Tells(a, c, d)
    case IterateExactly(a, _) => Tells(a, c, d)
  }

  /** after is the partition before, with the characters that the pattern tells apart on different lists. */
  ghost predicate Divided(before: seq<int>, after: seq<int>, csize: int, re: Re) {
    forall c, d :: 0 <= c < csize && 0 <= d < csize ==>
      (OneList(after, csize, c, d) <==> OneList(before, csize, c, d) && !Tells(re, c, d))
  }

  /** The lists divided by a set of characters. */
  lemma SetDivided(before: seq<int>, after: seq<int>, csize: nat, m: seq<int>, re: Re)
    requires Ecs.RefinedBy(before, after, csize, Ecs.Mapped(m, csize)) && forall p :: 0 <= p < |m| ==> 0 <= m[p] < csize
    requires forall c, d :: 0 <= c < csize && 0 <= d < csize ==> (Tells(re, c, d) <==> ((c in m) != (d in m)))
    ensures Divided(before, after, csize, re)
  {
    hide Tells;
    forall c, d | 0 <= c < csize && 0 <= d < csize
      ensures OneList(after, csize, c, d) <==> OneList(before, csize, c, d) && !Tells(re, c, d)
    {
      MappedIn(m, csize, c);
      MappedIn(m, csize, d);
    }
  }

  lemma MappedIn(m: seq<int>, csize: int, c: int)
    requires 0 <= c < csize && forall p :: 0 <= p < |m| ==> 0 <= m[p] < csize
    ensures Ecs.MapNul(c, csize) in Ecs.Mapped(m, csize) <==> c in m
  {
    var x, mapped := Ecs.MapNul(c, csize), Ecs.Mapped(m, csize);
    if c in m {
      var p :| 0 <= p < |m| && m[p] == c;
      assert mapped[p] == x;
    }
    if x in mapped {
      var p :| 0 <= p < |mapped| && mapped[p] == x;
      assert mapped[p] == Ecs.MapNul(m[p], csize);
    }
  }

  lemma CharDivided(before: seq<int>, after: seq<int>, csize: int, x: int)
    requires SplitOff(before, after, x, csize) && 0 <= x < csize
    ensures Divided(before, after, csize, Char(x))
  {
    hide Ecs.RefinedBy, Whole;
    assert Ecs.Mapped([x], csize) == [Ecs.MapNul(x, csize)];
    SetDivided(before, after, csize, [x], Char(x));
  }

  lemma ClassDivided(before: seq<int>, after: seq<int>, csize: nat, m: seq<int>, items: seq<CclItem>, negated: bool)
    requires Ecs.RefinedBy(before, after, csize, Ecs.Mapped(m, csize)) && ClassStored(m, csize)
    requires forall c :: c in m <==> InItems(items, c)
    ensures Divided(before, after, csize, Class(items, negated))
  {
    hide Ecs.RefinedBy;
    SetDivided(before, after, csize, m, Class(items, negated));
  }

  lemma AnyDivided(before: seq<int>, after: seq<int>, csize: nat)
    requires Ecs.RefinedBy(before, after, csize, Ecs.Mapped([10], csize)) && 10 < csize
    ensures Divided(before, after, csize, Any)
  {
    hide Ecs.RefinedBy;
    SetDivided(before, after, csize, [10], Any);
  }

  /** Where the lists are inside or outside of a class already, it divides none. */
  lemma AlreadyDivided(b: seq<int>, csize: nat, m: seq<int>, re: Re)
    requires Whole(b, csize, Ecs.Mapped(m, csize)) && ClassStored(m, csize)
    requires forall c, d :: 0 <= c < csize && 0 <= d < csize ==> (Tells(re, c, d) <==> ((c in m) != (d in m)))
    ensures Divided(b, b, csize, re)
  {
    assert Ecs.RefinedBy(b, b, csize, Ecs.Mapped(m, csize));
    hide Whole, Ecs.RefinedBy, Tells;
    SetDivided(b, b, csize, m, re);
  }

  /** What the parts of a pattern divide the pattern divides. */
  lemma PartsDivided(b0: seq<int>, b1: seq<int>, b2: seq<int>, csize: int, x: Re, y: Re, re: Re)
    requires Divided(b0, b1, csize, x) && Divided(b1, b2, csize, y) && (re == Seq(x, y) || re == Alt(x, y))
    ensures Divided(b0, b2, csize, re)
  {
    hide OneList;
  }

  lemma AllOnOne(b: seq<int>, csize: nat)
    requires forall i :: 1 <= i <= csize ==> Ecs.Head(b, i) == 1
    ensures forall c, d :: 0 <= c < csize && 0 <= d < csize ==> OneList(b, csize, c, d)
  {}

  lemma StrNone(b: seq<int>, csize: int)
    ensures Divided(b, b, csize, Str([]))
  {
    hide OneList;
  }

  lemma StrOneMore(b0: seq<int>, b1: seq<int>, b2: seq<int>, csize: int, chars: seq<int>, k: int)
    requires 0 <= k < |chars| && Divided(b0, b1, csize, Str(chars[..k])) && Divided(b1, b2, csize, Char(chars[k]))
    ensures Divided(b0, b2, csize, Str(chars[..k + 1]))
  {
    hide OneList;
    assert chars[..k + 1] == chars[..k] + [chars[k]];
  }
}
