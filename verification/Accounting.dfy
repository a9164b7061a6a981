/**
  Where frames go: a mapping takes exactly one frame for every table that was missing on the
  paths of its pages, and tables form a tree.
 */
module Accounting {
  import opened Bits
  import opened Options
  import opened PageTables
  import opened Growth
  import opened Mapping

  /** The (level, prefix) of the tables missing on the paths of the pages. */
  ghost function Missing(m: Memory, root: nat, pages: set<nat>): set<(nat, nat)> {
    set p, level: nat | p in pages && 1 <= level <= 3 && Node(m, root, p, level) == None :: (level, Prefix(p, level))
  }

  ghost function Place(tag: Tag): (nat, nat) {
    (tag.level, tag.prefix)
  }

  ghost predicate Injective(m: map<nat, (nat, nat)>) {
    forall f, g | f in m && g in m && m[f] == m[g] :: f == g
  }

  lemma {:induction false} InjectiveSize(m: map<nat, (nat, nat)>)
    requires Injective(m)
    ensures |m.Keys| == |m.Values|
    decreases |m|
  {
    if m.Keys != {} {
      var f :| f in m;
      var rest := m - {f};
      Without(m, f);
      InjectiveSize(rest);
    }
  }

  lemma Without(m: map<nat, (nat, nat)>, f: nat)
    requires Injective(m) && f in m
    ensures var rest := m - {f};
            && Injective(rest) && m.Keys == rest.Keys + {f} && f !in rest.Keys
            && m.Values == rest.Values + {m[f]} && m[f] !in rest.Values
  {
    var rest := m - {f};
    assert m.Keys == rest.Keys + {f};
    forall x | x in m.Values ensures x in rest.Values + {m[f]} {
      var g :| g in m && m[g] == x;
      assert g == f || (g in rest && rest[g] == x);
    }
    forall x | x in rest.Values ensures x in m.Values && x != m[f] {
      var g :| g in rest && rest[g] == x;
      assert g in m && m[g] == x;
    }
  }

  /** Pages with the same prefix have the same node. */
  lemma {:induction false} NodeByPrefix(m: Memory, root: nat, p: nat, q: nat, level: nat)
    requires 1 <= level <= 4 && Prefix(p, level) == Prefix(q, level)
    ensures Node(m, root, p, level) == Node(m, root, q, level)
    decreases 4 - level
  {
    if level < 4 {
      assert Prefix(p, level + 1) == Prefix(q, level + 1);
      NodeByPrefix(m, root, p, q, level + 1);
    }
  }

  /** The new tables of a mapping, each with its place. */
  ghost function NewPlaces(s: State, s': State): map<nat, (nat, nat)> {
    map g | g in s'.tags && g !in s.tags :: Place(s'.tags[g])
  }

  /** Every new table sits at a missing place of one of the pages, and is the node there. */
  lemma NewPlaceMissing(s: State, s': State, root: nat, pages: set<nat>, g: nat) returns (p: nat)
    requires Sound(s) && Sound(s') && IsRoot(s, root) && Keeps(s, s') && NewTables(s, s', root, pages)
    requires g in s'.tags && g !in s.tags
    ensures p in pages && p < PAGES && 1 <= s'.tags[g].level <= 3
    ensures Node(s'.mem, root, p, s'.tags[g].level) == Some(g) && Node(s.mem, root, p, s'.tags[g].level) == None
    ensures s'.tags[g].prefix == Prefix(p, s'.tags[g].level)
  {
    assert TableFor(s', g, root, pages);
    var level := s'.tags[g].level;
    assert GoodTag(s', g, s'.tags[g]);
    p :| p in pages && p < PAGES && Node(s'.mem, root, p, level) == Some(g);
    NodeTag(s', root, p, level);
    if Node(s.mem, root, p, level).Some? {
      NodeKept(s, s', root, p, level);
      NodeTag(s, root, p, level);
    }
  }

  lemma NewPlacesInjective(s: State, s': State, root: nat, pages: set<nat>)
    requires Sound(s) && Sound(s') && IsRoot(s, root) && Keeps(s, s') && NewTables(s, s', root, pages)
    ensures Injective(NewPlaces(s, s'))
  {
    var m := NewPlaces(s, s');
    forall f, g | f in m && g in m && m[f] == m[g] ensures f == g {
      var p := NewPlaceMissing(s, s', root, pages, f);
      var q := NewPlaceMissing(s, s', root, pages, g);
      NodeByPrefix(s'.mem, root, p, q, s'.tags[f].level);
    }
  }

  lemma NewPlacesAreMissing(s: State, s': State, root: nat, pages: set<nat>, fl: u64)
    requires Sound(s) && Sound(s') && IsRoot(s, root) && Keeps(s, s') && NewTables(s, s', root, pages)
    requires NewLinks(s, s', root, pages, fl) && PathsExist(s', root, pages) && forall p | p in pages :: p < PAGES
    ensures NewPlaces(s, s').Values == Missing(s.mem, root, pages)
  {
    var m, missing := NewPlaces(s, s'), Missing(s.mem, root, pages);
    forall x | x in m.Values ensures x in missing {
      var g :| g in m && m[g] == x;
      var p := NewPlaceMissing(s, s', root, pages, g);
    }
    forall x | x in missing ensures x in m.Values {
      var p, level: nat :| p in pages && 1 <= level <= 3 && Node(s.mem, root, p, level) == None
                           && x == (level, Prefix(p, level));
      MissingIsFilled(s, s', root, pages, fl, p, level);
      var g := Node(s'.mem, root, p, level).value;
      assert g in m && m[g] == x;
    }
  }

  lemma MissingIsFilled(s: State, s': State, root: nat, pages: set<nat>, fl: u64, p: nat, level: nat)
    requires Sound(s) && Sound(s') && IsRoot(s, root) && Keeps(s, s') && NewLinks(s, s', root, pages, fl)
    requires PathsExist(s', root, pages) && p in pages && p < PAGES && 1 <= level <= 3
             && Node(s.mem, root, p, level) == None
    ensures Node(s'.mem, root, p, level).Some?
    ensures var g := Node(s'.mem, root, p, level).value;
            g in s'.tags && g !in s.tags && Place(s'.tags[g]) == (level, Prefix(p, level))
  {
    NodeAbove(s'.mem, root, p, 1, level);
    NewNodeIsNew(s, s', root, pages, fl, p, level);
    NodeTag(s', root, p, level);
  }

  /**
    Conservation of frames: mapping a range uses up one frame for each table that was missing on
    the paths of its pages, the data frames it was given, and nothing else.
   */
  lemma FramesTaken(s: State, s': State, root: nat, first: nat, words: seq<u64>, fl: u64, data: set<nat>)
    requires Sound(s) && IsRoot(s, root) && first < PAGES && Maps(s, s', root, first, words, fl, data)
    ensures |s'.used| == |s.used| + |Missing(s.mem, root, RangePages(first, |words|))| + |data|
  {
    hide Translates, OnlyTables;
    var pages := RangePages(first, |words|);
    forall p | p in pages ensures p < PAGES {
      RangeBelow(first, |words|, p);
    }
    NewPlacesInjective(s, s', root, pages);
    NewPlacesAreMissing(s, s', root, pages, fl);
    InjectiveSize(NewPlaces(s, s'));
    TakenSize(s, s', data);
  }

  lemma TakenSize(s: State, s': State, data: set<nat>)
    requires Sound(s) && Keeps(s, s') && Takes(s, s', data)
    ensures |s'.used| == |s.used| + |NewPlaces(s, s').Keys| + |data|
  {
    TagsUsed(s);
    assert NewPlaces(s, s').Keys == s'.tags.Keys - s.tags.Keys;
    assert s.tags.Keys <= s'.tags.Keys;
    DisjointSizes(s.used, s.tags.Keys, s'.tags.Keys, data);
  }

  lemma DisjointSizes(used: set<nat>, before: set<nat>, all: set<nat>, data: set<nat>)
    requires before <= used && before <= all && (all - before) !! used && data !! used && data !! all
    ensures |used + all + data| == |used| + |all - before| + |data|
  {
    assert used + all == used + (all - before);
    assert |used + (all - before)| == |used| + |all - before|;
    assert (used + all) !! data;
  }

  /** A range whose tables all exist costs only its data frames: remapping takes nothing. */
  lemma NothingMissing(m: Memory, root: nat, pages: set<nat>)
    requires forall p | p in pages :: Node(m, root, p, 1).Some?
    ensures Missing(m, root, pages) == {}
  {
    forall p, level: nat | p in pages && 1 <= level <= 3 ensures Node(m, root, p, level).Some? {
      NodeAbove(m, root, p, 1, level);
    }
  }

  // ---------------------------------------------------------------- the tree

  /** Table `g` is reached in context `root` through slot `i` of table `f`, on the path of some page. */
  ghost predicate Reaches(s: State, root: nat, f: nat, i: nat, g: nat) {
    exists p, level: nat :: OnWay(s, root, p, level, f, i, g)
  }

  ghost predicate OnWay(s: State, root: nat, p: nat, level: nat, f: nat, i: nat, g: nat) {
    && p < PAGES && 1 <= level <= 3
    && Node(s.mem, root, p, level + 1) == Some(f) && Index(p, level + 1) == i && Node(s.mem, root, p, level) == Some(g)
  }

  /** A slot on the way to table `g` is fixed by the level and prefix of `g`. */
  lemma WayIsFixed(s: State, root: nat, p: nat, level: nat, f: nat, i: nat, g: nat)
    requires Sound(s) && IsRoot(s, root) && OnWay(s, root, p, level, f, i, g)
    ensures g in s.tags && g in s.used && s.tags[g].level == level && Prefix(p, level) == s.tags[g].prefix
    ensures f in s.tags && s.tags[f].level == level + 1
    ensures Prefix(p, level + 1) == s.tags[g].prefix / 512 && i == s.tags[g].prefix % 512
  {
    NodeTag(s, root, p, level);
    NodeTag(s, root, p, level + 1);
    PrefixStep(p, level + 1);
    TagsUsed(s);
  }

  /**
    The tables a context reaches form a tree: each but the root has exactly one slot that leads to
    it, the root has none, and no table leads to itself.
   */
  lemma TablesFormATree(s: State, root: nat, f: nat, i: nat, f': nat, i': nat, g: nat)
    requires Sound(s) && IsRoot(s, root)
    requires Reaches(s, root, f, i, g) && Reaches(s, root, f', i', g)
    ensures f == f' && i == i' && g != root && g != f && g in s.used
  {
    hide Sound, Prefix, Node, Index;
    var p, level: nat :| OnWay(s, root, p, level, f, i, g);
    var q, level': nat :| OnWay(s, root, q, level', f', i', g);
    WayIsFixed(s, root, p, level, f, i, g);
    WayIsFixed(s, root, q, level', f', i', g);
    NodeByPrefix(s.mem, root, p, q, level + 1);
  }
}
