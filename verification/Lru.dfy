/**
 The textbook LRU cache csim.c has to agree with: per set a queue of tags, most recently used
 first; and the classical theorems about it (stack property, reuse distance, inclusion).
 */
module Lru {
  import opened Common

  type Tag = int

  function Remove(q: seq<Tag>, t: Tag): (r: seq<Tag>)
    ensures |q| - 1 <= |r| <= |q|
  {
    if q == [] then [] else if q[0] == t then q[1..] else [q[0]] + Remove(q[1..], t)
  }

  /** Using t: it moves to the front, or enters there and pushes the last one out. */
  function Touch(q: seq<Tag>, t: Tag, lines: nat): seq<Tag> {
    Take([t] + Remove(q, t), lines)
  }

  lemma {:induction false} RemoveKeeps(q: seq<Tag>, t: Tag)
    requires NoRepeats(q)
    ensures NoRepeats(Remove(q, t)) && t !in Remove(q, t)
    ensures forall u :: u != t ==> (u in Remove(q, t) <==> u in q)
    ensures |Remove(q, t)| == if t in q then |q| - 1 else |q|
  {
    if q != [] {
      if q[0] != t {
        RemoveKeeps(q[1..], t);
        assert q == [q[0]] + q[1..];
        assert q[0] !in q[1..];
      } else {
        assert t !in q[1..];
        assert q == [t] + q[1..];
      }
    }
  }

  lemma {:induction false} RemoveAbsent(q: seq<Tag>, t: Tag)
    requires t !in q
    ensures Remove(q, t) == q
  {
    if q != [] {
      RemoveAbsent(q[1..], t);
    }
  }

  lemma TailOfFront(q: seq<Tag>, n: nat)
    requires |q| > n
    ensures q[..n + 1][1..] == q[1..][..n]
  {
  }

  /** Where t is in front of the cut or behind it, cutting and removing commute. */
  lemma {:induction false} RemoveTake(q: seq<Tag>, t: Tag, n: nat)
    ensures Take(Remove(Take(q, n + 1), t), n) == Take(Remove(q, t), n)
  {
    if |q| > n + 1 {
      TailOfFront(q, n);
      if q[0] != t && n > 0 {
        RemoveTake(q[1..], t, n - 1);
        assert Take(q[1..], n) == q[1..][..n];
        TakeCons(q[0], Remove(q[1..][..n], t), n);
        TakeCons(q[0], Remove(q[1..], t), n);
      }
    }
  }

  lemma TakeCons(x: Tag, q: seq<Tag>, n: nat)
    requires n > 0
    ensures Take([x] + q, n) == [x] + Take(q, n - 1)
  {
  }

  /** The stack property: a cache of `lines` lines always holds the top of the unbounded stack. */
  lemma StackProperty(stack: seq<Tag>, t: Tag, lines: nat)
    requires lines > 0
    ensures Touch(Take(stack, lines), t, lines) == Take([t] + Remove(stack, t), lines)
  {
    RemoveTake(stack, t, lines - 1);
    TakeCons(t, Remove(Take(stack, lines), t), lines);
    TakeCons(t, Remove(stack, t), lines);
  }

  // ---- histories of one set ----

  /** All tags ever used, most recent first. */
  function Stack(h: seq<Tag>): seq<Tag> {
    if h == [] then [] else [h[|h| - 1]] + Remove(Stack(h[..|h| - 1]), h[|h| - 1])
  }

  /** The LRU queue after a history. */
  function Queue(h: seq<Tag>, lines: nat): seq<Tag> {
    if h == [] then [] else Touch(Queue(h[..|h| - 1], lines), h[|h| - 1], lines)
  }

  lemma {:induction false} QueueIsTopOfStack(h: seq<Tag>, lines: nat)
    requires lines > 0
    ensures Queue(h, lines) == Take(Stack(h), lines)
  {
    if h != [] {
      QueueIsTopOfStack(h[..|h| - 1], lines);
      StackProperty(Stack(h[..|h| - 1]), h[|h| - 1], lines);
    }
  }

  lemma {:induction false} StackTags(h: seq<Tag>)
    ensures NoRepeats(Stack(h)) && forall t :: t in Stack(h) <==> t in h
  {
    if h != [] {
      var g, u := h[..|h| - 1], h[|h| - 1];
      StackTags(g);
      RemoveKeeps(Stack(g), u);
      assert h == g + [u];
    }
  }

  /** The inclusion theorem: fewer lines hold a prefix of what more lines hold. */
  lemma Inclusion(h: seq<Tag>, few: nat, many: nat)
    requires 0 < few <= many
    ensures Queue(h, few) <= Queue(h, many)
    ensures forall t :: t in Queue(h, few) ==> t in Queue(h, many)
  {
    QueueIsTopOfStack(h, few);
    QueueIsTopOfStack(h, many);
  }

  ghost function Tags(h: seq<Tag>): set<Tag> {
    set t | t in h
  }

  lemma {:induction false} DistinctCount(q: seq<Tag>)
    requires NoRepeats(q)
    ensures |Tags(q)| == |q|
  {
    if q == [] {
      assert Tags(q) == {};
    } else {
      DistinctCount(q[1..]);
      assert q == [q[0]] + q[1..];
      assert Tags(q) == {q[0]} + Tags(q[1..]);
      assert q[0] !in Tags(q[1..]);
    }
  }

  /** After a use of t followed by uses of other tags only, exactly those are above t. */
  lemma {:induction false} AboveLastUse(h: seq<Tag>, t: Tag, since: seq<Tag>) returns (above: seq<Tag>, below: seq<Tag>)
    requires t !in since
    ensures Stack(h + [t] + since) == above + [t] + below
    ensures NoRepeats(above) && Tags(above) == Tags(since)
    decreases |since|
  {
    var all := h + [t] + since;
    if since == [] {
      assert all == h + [t];
      assert all[..|all| - 1] == h;
      above, below := [], Remove(Stack(h), t);
    } else {
      var u, rest := since[|since| - 1], since[..|since| - 1];
      assert since == rest + [u];
      assert all[..|all| - 1] == h + [t] + rest;
      above, below := AboveLastUse(h, t, rest);
      above, below := AboveStep(above, t, below, u, rest);
    }
  }

  /** Using another tag u puts it above those above t. */
  lemma AboveStep(p: seq<Tag>, t: Tag, q: seq<Tag>, u: Tag, rest: seq<Tag>) returns (above: seq<Tag>, below: seq<Tag>)
    requires NoRepeats(p) && Tags(p) == Tags(rest) && u != t
    ensures [u] + Remove(p + [t] + q, u) == above + [t] + below
    ensures NoRepeats(above) && Tags(above) == Tags(rest + [u])
  {
    RemoveAround(p, t, q, u);
    RaisedTags(p, u);
    TagsAdd(rest, u);
    above, below := [u] + Remove(p, u), if u in p then q else Remove(q, u);
  }

  lemma RemoveAround(p: seq<Tag>, t: Tag, q: seq<Tag>, u: Tag)
    requires u != t
    ensures Remove(p + [t] + q, u) == Remove(p, u) + [t] + if u in p then q else Remove(q, u)
  {
    RemoveAppend(p, [t] + q, u);
    assert p + [t] + q == p + ([t] + q);
    if u in p {
      assert Remove(p, u) + [t] + q == Remove(p, u) + ([t] + q);
    } else {
      RemoveAbsent(p, u);
      assert ([t] + q)[1..] == q;
    }
  }

  lemma RaisedTags(p: seq<Tag>, u: Tag)
    requires NoRepeats(p)
    ensures NoRepeats([u] + Remove(p, u)) && Tags([u] + Remove(p, u)) == Tags(p) + {u}
  {
    RemoveKeeps(p, u);
  }

  lemma TagsAdd(h: seq<Tag>, u: Tag)
    ensures Tags(h + [u]) == Tags(h) + {u}
  {
  }

  lemma {:induction false} RemoveAppend(p: seq<Tag>, q: seq<Tag>, u: Tag)
    ensures Remove(p + q, u) == if u in p then Remove(p, u) + q else p + Remove(q, u)
  {
    if p == [] {
      assert p + q == q;
    } else {
      var rest := p[1..];
      assert (p + q)[1..] == rest + q;
      if p[0] != u {
        RemoveAppend(rest, q, u);
        RemoveHead(p[0], rest, q, u);
        assert p == [p[0]] + rest;
      }
    }
  }

  /** A head that is not removed stays in front. */
  lemma RemoveHead(x: Tag, rest: seq<Tag>, q: seq<Tag>, u: Tag)
    requires x != u && Remove(rest + q, u) == if u in rest then Remove(rest, u) + q else rest + Remove(q, u)
    ensures [x] + Remove(rest + q, u)
            == if u in [x] + rest then ([x] + Remove(rest, u)) + q else ([x] + rest) + Remove(q, u)
  {
  }

  /** The uses after the last use of t. */
  function SinceLast(h: seq<Tag>, t: Tag): seq<Tag> {
    if h == [] || h[|h| - 1] == t then [] else SinceLast(h[..|h| - 1], t) + [h[|h| - 1]]
  }

  lemma {:induction false} LastUse(h: seq<Tag>, t: Tag) returns (before: seq<Tag>)
    requires t in h
    ensures h == before + [t] + SinceLast(h, t) && t !in SinceLast(h, t)
  {
    var g, u := h[..|h| - 1], h[|h| - 1];
    assert h == g + [u];
    if u == t {
      before := g;
    } else {
      before := LastUse(g, t);
    }
  }

  /** Reuse distance: t is cached iff it was used, and fewer than `lines` other tags since its last use. */
  lemma ReuseDistance(h: seq<Tag>, t: Tag, lines: nat)
    requires lines > 0
    ensures t in Queue(h, lines) <==> t in h && |Tags(SinceLast(h, t))| < lines
  {
    QueueIsTopOfStack(h, lines);
    StackTags(h);
    if t in h {
      var since := SinceLast(h, t);
      var before := LastUse(h, t);
      var above, below := AboveLastUse(before, t, since);
      DistinctCount(above);
      var s := Stack(h);
      assert s[|above|] == t;
      assert t in Take(s, lines) <==> |above| < lines;
    }
  }
}
