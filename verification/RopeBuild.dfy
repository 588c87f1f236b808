/** `shtring_create` (shtring.c): the chunk tree for a C string, and exactly the words it was said to need. */
module RopeBuild {

  import opened Wrappers
  import opened Rope

  const SHTRING_WORDS: nat := 5
  const WORD_BYTES: nat := 4

  /** `shtring_idiv`. */
  function BlocksFor(a: nat, b: nat): nat
    requires b > 0
  {
    (a + b - 1) / b
  }

  // ---------- the words of a tree ----------

  function WordsOf(t: Tree): nat
    decreases t, 0
  {
    match t
    case Chunk(text) => 1 + BlocksFor(|text|, WORD_BYTES)
    case Node(_, _, kids) => 3 + |kids| + WordsOfAll(kids)
  }

  function WordsOfAll(kids: seq<Tree>): nat
    decreases kids, 1
  {
    if kids == [] then 0 else WordsOfAll(kids[..|kids| - 1]) + WordsOf(kids[|kids| - 1])
  }

  // ---------- building ----------

  /** How much text a tree of height `h` can have. */
  function Capacity(h: nat): nat {
    if h <= 1 then SHTRING_CHUNK_MAX else MAX_SHTRING_NODE_CHILDREN * Capacity(h - 1)
  }

  function Min(a: nat, b: nat): nat { if a < b then a else b }

  lemma {:induction false} CapacityIsPositive(h: nat)
    ensures Capacity(h) >= SHTRING_CHUNK_MAX
  {
    if h > 1 {
      CapacityIsPositive(h - 1);
    }
  }

  /** The tree of height `h` that is built over a text: its children are full, but for the last. */
  function Built(h: nat, text: string): Tree
    decreases h, 0
  {
    if h <= 1 then Chunk(text) else NewNode(BuiltKids(h - 1, text), h)
  }

  function BuiltKids(h: nat, text: string): seq<Tree>
    decreases h, 1, |text|
  {
    if text == [] then []
    else
      CapacityIsPositive(h);
      var n := Min(|text|, Capacity(h));
      [Built(h, text[..n])] + BuiltKids(h, text[n..])
  }

  /** The words of that tree. */
  function TreeWords(h: nat, len: nat): nat
    decreases h, 0
  {
    if h <= 1 then 1 + BlocksFor(len, WORD_BYTES) else 3 + KidsWords(h - 1, len)
  }

  /** The words of children of height `h`, and a pointer to each. */
  function KidsWords(h: nat, len: nat): nat
    decreases h, 1, len
  {
    if len == 0 then 0
    else
      CapacityIsPositive(h);
      if len <= Capacity(h) then 1 + TreeWords(h, len)
      else 1 + TreeWords(h, Capacity(h)) + KidsWords(h, len - Capacity(h))
  }

  /** It is well formed, has the text, and takes those words. */
  lemma {:induction false} BuiltKeeps(h: nat, text: string)
    requires h > 0 && 0 < |text| <= Capacity(h)
    ensures WellFormed(Built(h, text), h) && Text(Built(h, text)) == text
    ensures WordsOf(Built(h, text)) == TreeWords(h, |text|)
    decreases h, 0
  {
    if h > 1 {
      hide Text, Texts, WellFormed, WordsOf, WordsOfAll;
      BuiltKidsKeep(h - 1, text, MAX_SHTRING_NODE_CHILDREN);
      NodeIs(BuiltKids(h - 1, text), h);
    }
  }

  lemma NodeIs(kids: seq<Tree>, h: nat)
    requires h > 1 && AllWellFormed(kids, h - 1) && 1 <= |kids| <= MAX_SHTRING_NODE_CHILDREN
    ensures WellFormed(NewNode(kids, h), h) && Text(NewNode(kids, h)) == Texts(kids)
    ensures WordsOf(NewNode(kids, h)) == 3 + |kids| + WordsOfAll(kids)
  {
  }

  /** So do its children, of which there are as few as possible. */
  lemma {:induction false} BuiltKidsKeep(h: nat, text: string, n: nat)
    requires h > 0 && |text| <= n * Capacity(h)
    ensures AllWellFormed(BuiltKids(h, text), h) && Texts(BuiltKids(h, text)) == text
    ensures |BuiltKids(h, text)| <= n && (text != [] ==> BuiltKids(h, text) != [])
    ensures |BuiltKids(h, text)| + WordsOfAll(BuiltKids(h, text)) == KidsWords(h, |text|)
    decreases h, 1, |text|
  {
    hide Text, Texts, WellFormed, WordsOf, WordsOfAll, TreeWords, Built, Capacity;
    if text == [] {
      NoKids();
    } else {
      CapacityIsPositive(h);
      OneMore(n, Capacity(h), |text|);
      var m := Min(|text|, Capacity(h));
      BuiltKeeps(h, text[..m]);
      BuiltKidsKeep(h, text[m..], n - 1);
      var p, kids := Built(h, text[..m]), BuiltKids(h, text[m..]);
      TextsAppend([p], kids);
      TextsOne(p);
      WordsInFront(p, kids);
      assert text[..m] + text[m..] == text;
      assert KidsWords(h, |text|) == 1 + TreeWords(h, m) + KidsWords(h, |text| - m) by {
        assert KidsWords(h, 0) == 0;
      }
    }
  }

  lemma NoKids()
    ensures Texts([]) == [] && WordsOfAll([]) == 0
  {
  }

  lemma OneMore(n: nat, c: nat, len: nat)
    requires 0 < len <= n * c
    ensures n > 0 && (if len <= c then 0 else len - c) <= (n - 1) * c
  {
  }

  lemma {:induction false} WordsInFront(p: Tree, kids: seq<Tree>)
    ensures WordsOfAll([p] + kids) == WordsOf(p) + WordsOfAll(kids)
    decreases |kids|
  {
    if kids == [] {
      assert WordsOfAll([p]) == WordsOfAll([p][..0]) + WordsOf(p) == WordsOf(p);
      assert [p] + kids == [p];
    } else {
      var n := |kids| - 1;
      WordsInFront(p, kids[..n]);
      assert ([p] + kids)[..n + 1] == [p] + kids[..n];
    }
  }

  /** `build_chunk`: up to `SHTRING_CHUNK_MAX` characters. */
  method BuildChunk(cstr: string) returns (p: Tree, rest: string)
    requires cstr != []
    ensures var n := Min(|cstr|, Capacity(1)); p == Built(1, cstr[..n]) && rest == cstr[n..]
  {
    var n := if |cstr| > SHTRING_CHUNK_MAX then SHTRING_CHUNK_MAX else |cstr|;
    p, rest := Chunk(cstr[..n]), cstr[n..];
  }

  /** `build_tree`: takes as many characters as there are, or as a tree of the height can have. */
  method BuildTree(height: nat, cstr: string) returns (p: Tree, rest: string)
    requires height > 0 && cstr != []
    ensures var n := Min(|cstr|, Capacity(height)); p == Built(height, cstr[..n]) && rest == cstr[n..]
    ensures WellFormed(p, height) && Text(p) + rest == cstr
    decreases height
  {
    hide Text, Texts, KidsWords, WellFormed, WordsOf, Built, BuiltKids, Filled, Capacity, NewNode, TreeWords;
    ghost var text := cstr[..Min(|cstr|, Capacity(height))];
    if height == 1 {
      p, rest := BuildChunk(cstr);
    } else {
      var tab: seq<Tree> := [];
      rest := cstr;
      NoneFilled(height - 1, cstr, text);
      while |tab| < MAX_SHTRING_NODE_CHILDREN && rest != []
        invariant |tab| <= MAX_SHTRING_NODE_CHILDREN && Filled(tab, height - 1, cstr, rest, text)
        decreases |rest|
      {
        var child, more := BuildTree(height - 1, rest);
        FilledOn(tab, height - 1, cstr, rest, text, child, more);
        tab := tab + [child];
        rest := more;
      }
      AllFilled(tab, height - 1, cstr, rest, text);
      BuiltIs(height, text);
      p := NewNode(tab, height);
    }
    CapacityIsPositive(height);
    BuiltKeeps(height, text);
  }

  /** The children so far: full ones, but for the last when the text has come to its end. */
  ghost predicate Filled(tab: seq<Tree>, h: nat, cstr: string, rest: string, text: string) {
    && |tab| <= MAX_SHTRING_NODE_CHILDREN && |rest| <= |cstr|
    && var taken := |cstr| - |rest|;
       && rest == cstr[taken..] && taken <= |text|
       && (rest != [] ==> taken == |tab| * Capacity(h))
       && BuiltKids(h, text) == tab + BuiltKids(h, text[taken..])
  }

  lemma NoneFilled(h: nat, cstr: string, text: string)
    ensures Filled([], h, cstr, cstr, text)
  {
    assert text[0..] == text;
  }

  lemma BuiltIs(h: nat, text: string)
    requires h > 1
    ensures Built(h, text) == NewNode(BuiltKids(h - 1, text), h)
  {
  }

  lemma FilledOn(tab: seq<Tree>, h: nat, cstr: string, rest: string, text: string, child: Tree, more: string)
    requires h > 0 && Filled(tab, h, cstr, rest, text) && |tab| < MAX_SHTRING_NODE_CHILDREN && rest != []
    requires text == cstr[..Min(|cstr|, Capacity(h + 1))]
    requires var n := Min(|rest|, Capacity(h)); child == Built(h, rest[..n]) && more == rest[n..]
    ensures Filled(tab + [child], h, cstr, more, text) && |more| < |rest|
  {
    hide Built, BuiltKids;
    CapacityIsPositive(h);
    var taken, n := |cstr| - |rest|, Min(|rest|, Capacity(h));
    AtMostFull(|tab|, Capacity(h));
    assert Capacity(h + 1) == MAX_SHTRING_NODE_CHILDREN * Capacity(h);
    hide Capacity;
    var left := text[taken..];
    assert left[..Min(|left|, Capacity(h))] == rest[..n];
    assert left[Min(|left|, Capacity(h))..] == text[taken + n..];
    KidInFront(h, left);
    assert tab + ([child] + BuiltKids(h, text[taken + n..])) == tab + [child] + BuiltKids(h, text[taken + n..]);
    assert more == cstr[taken + n..];
  }

  lemma KidInFront(h: nat, text: string)
    requires text != []
    ensures var n := Min(|text|, Capacity(h)); BuiltKids(h, text) == [Built(h, text[..n])] + BuiltKids(h, text[n..])
  {
    CapacityIsPositive(h);
  }

  lemma AtMostFull(k: nat, c: nat)
    requires k < MAX_SHTRING_NODE_CHILDREN
    ensures k * c + c == (k + 1) * c <= MAX_SHTRING_NODE_CHILDREN * c
  {
  }

  lemma AllFilled(tab: seq<Tree>, h: nat, cstr: string, rest: string, text: string)
    requires Filled(tab, h, cstr, rest, text) && text == cstr[..Min(|cstr|, Capacity(h + 1))] && h > 0
    requires |tab| == MAX_SHTRING_NODE_CHILDREN || rest == []
    ensures tab == BuiltKids(h, text) && rest == cstr[|text|..]
  {
    assert text[|text|..] == [];
  }

  // ---------- the size computed beforehand ----------

  lemma BlocksOfMore(k: nat, x: nat, b: nat)
    requires b == WORD_BYTES || b == MAX_SHTRING_NODE_CHILDREN || b == SHTRING_CHUNK_MAX
    ensures BlocksFor(b * k + x, b) == k + BlocksFor(x, b)
  {
    if b == WORD_BYTES {
      assert (4 * k + x + 3) / 4 == k + (x + 3) / 4;
    } else if b == MAX_SHTRING_NODE_CHILDREN {
      assert (8 * k + x + 7) / 8 == k + (x + 7) / 8;
    } else {
      assert (32 * k + x + 31) / 32 == k + (x + 31) / 32;
    }
  }

  /** How many chunks a full tree of height `h` has. */
  function FullChunks(h: nat): nat {
    if h <= 1 then 1 else MAX_SHTRING_NODE_CHILDREN * FullChunks(h - 1)
  }

  lemma {:induction false} CapacityInChunks(h: nat)
    ensures Capacity(h) == SHTRING_CHUNK_MAX * FullChunks(h) && FullChunks(h) >= 1
  {
    if h > 1 {
      CapacityInChunks(h - 1);
    }
  }

  /** Over `c` chunks, how many subtrees of height `h` there are. */
  function Roots(h: nat, c: nat): nat {
    if h <= 1 then c else Roots(h - 1, BlocksFor(c, MAX_SHTRING_NODE_CHILDREN))
  }

  /** And the words of all nodes up to height `h`, level by level from the chunks up. */
  function NodeWords(h: nat, c: nat): nat {
    if h <= 1 then 0
    else
      var n := BlocksFor(c, MAX_SHTRING_NODE_CHILDREN);
      c + 3 * n + NodeWords(h - 1, n)
  }

  function Chunks(len: nat): nat {
    BlocksFor(len, SHTRING_CHUNK_MAX)
  }

  function LevelSum(h: nat, len: nat): nat {
    BlocksFor(len, WORD_BYTES) + Chunks(len) + NodeWords(h, Chunks(len))
  }

  lemma {:induction false} FullTreeInFront(h: nat, x: nat)
    ensures Roots(h, FullChunks(h) + x) == 1 + Roots(h, x)
    ensures NodeWords(h, FullChunks(h) + x) == NodeWords(h, FullChunks(h)) + NodeWords(h, x)
  {
    if h > 1 {
      BlocksOfMore(FullChunks(h - 1), x, MAX_SHTRING_NODE_CHILDREN);
      BlocksOfMore(FullChunks(h - 1), 0, MAX_SHTRING_NODE_CHILDREN);
      FullTreeInFront(h - 1, BlocksFor(x, MAX_SHTRING_NODE_CHILDREN));
    }
  }

  /** The level at the top counted apart. */
  lemma {:induction false} TopLevel(h: nat, c: nat)
    requires h > 1
    ensures NodeWords(h, c) == NodeWords(h - 1, c) + Roots(h - 1, c) + 3 * Roots(h, c)
  {
    if h > 2 {
      TopLevel(h - 1, BlocksFor(c, MAX_SHTRING_NODE_CHILDREN));
    }
  }

  lemma {:induction false} OneRoot(h: nat, c: nat)
    ensures Roots(h, c) <= 1 <==> c <= FullChunks(h)
    ensures c > 0 ==> Roots(h, c) > 0
    ensures c == 0 ==> Roots(h, c) == 0 && NodeWords(h, c) == 0
  {
    if h > 1 {
      OneRoot(h - 1, BlocksFor(c, MAX_SHTRING_NODE_CHILDREN));
    }
  }

  lemma BlocksBehindFullTree(h: nat, len: nat)
    ensures Chunks(Capacity(h)) == FullChunks(h) && Chunks(Capacity(h) + len) == FullChunks(h) + Chunks(len)
    ensures BlocksFor(Capacity(h) + len, WORD_BYTES) == BlocksFor(Capacity(h), WORD_BYTES) + BlocksFor(len, WORD_BYTES)
  {
    CapacityInChunks(h);
    var f := FullChunks(h);
    BlocksOfMore(f, len, SHTRING_CHUNK_MAX);
    BlocksOfMore(f, 0, SHTRING_CHUNK_MAX);
    BlocksOfMore(8 * f, len, WORD_BYTES);
    BlocksOfMore(8 * f, 0, WORD_BYTES);
  }

  lemma LevelSumOn(h: nat, len: nat)
    ensures LevelSum(h, Capacity(h) + len) == LevelSum(h, Capacity(h)) + LevelSum(h, len)
    ensures Roots(h, Chunks(Capacity(h) + len)) == 1 + Roots(h, Chunks(len))
  {
    hide NodeWords, Roots, BlocksFor, Chunks, Capacity, FullChunks;
    BlocksBehindFullTree(h, len);
    FullTreeInFront(h, Chunks(len));
  }

  /** Counting a tree from the top and counting it by levels give the same. */
  lemma {:induction false} TreeWordsByLevels(h: nat, len: nat)
    requires 0 < len <= Capacity(h) && h > 0
    ensures TreeWords(h, len) == LevelSum(h, len)
    decreases h, 0
  {
    if h > 1 {
      KidsWordsByLevels(h - 1, len);
      TopLevel(h, Chunks(len));
      CapacityInChunks(h);
      OneRoot(h, Chunks(len));
    }
  }

  lemma {:induction false} KidsWordsByLevels(h: nat, len: nat)
    requires h > 0
    ensures KidsWords(h, len) == Roots(h, Chunks(len)) + LevelSum(h, len)
    decreases h, 1, len
  {
    CapacityInChunks(h);
    OneRoot(h, Chunks(len));
    if len == 0 {
    } else if len <= Capacity(h) {
      TreeWordsByLevels(h, len);
    } else {
      TreeWordsByLevels(h, Capacity(h));
      KidsWordsByLevels(h, len - Capacity(h));
      LevelSumOn(h, len - Capacity(h));
    }
  }

  /** `shtring_tree_size`. */
  method TreeSize(len: nat) returns (chunks: nat, height: nat, words: nat)
    ensures len == 0 ==> chunks == height == 0 && words == SHTRING_WORDS
    ensures len > 0 ==> height > 0 && len <= Capacity(height) && words == TreeWords(height, len) + SHTRING_WORDS
    ensures height > 1 ==> Capacity(height - 1) < len
  {
    chunks := BlocksFor(len, SHTRING_CHUNK_MAX);
    words := BlocksFor(len, WORD_BYTES) + chunks;
    height := if chunks > 0 then 1 else 0;
    var i := chunks;
    while i > 1
      invariant height == 0 <==> chunks == 0
      invariant chunks == 0 ==> i == 0
      invariant chunks > 0 ==> i > 0 && i == Roots(height, chunks)
      invariant height > 1 ==> Roots(height - 1, chunks) > 1
      invariant words == BlocksFor(len, WORD_BYTES) + chunks + NodeWords(height, chunks)
    {
      var n := BlocksFor(i, MAX_SHTRING_NODE_CHILDREN);
      RootsAbove(height + 1, chunks);
      TopLevel(height + 1, chunks);
      words := words + i + n * 3;
      height := height + 1;
      i := n;
    }
    if len > 0 {
      OneRoot(height, chunks);
      CapacityInChunks(height);
      TreeWordsByLevels(height, len);
      if height > 1 {
        OneRoot(height - 1, chunks);
        CapacityInChunks(height - 1);
      }
    }
    words := words + SHTRING_WORDS;
  }

  lemma {:induction false} RootsAbove(h: nat, c: nat)
    requires h > 1
    ensures Roots(h, c) == BlocksFor(Roots(h - 1, c), MAX_SHTRING_NODE_CHILDREN)
  {
    if h > 2 {
      RootsAbove(h - 1, BlocksFor(c, MAX_SHTRING_NODE_CHILDREN));
    }
  }

  /** What `shtring_create` makes: the tree built over the text, of the least height that is enough. */
  ghost predicate IsCreated(s: Shtring, cstr: string) {
    if cstr == [] then s == Shtring(0, 0, 0, None)
    else
      && s.height > 0 && |cstr| <= Capacity(s.height) && (s.height > 1 ==> Capacity(s.height - 1) < |cstr|)
      && s == Shtring(0, |cstr|, s.height, Some(Built(s.height, cstr)))
  }

  /** `shtring_create`: the whole text, in a well-formed tree of just the words announced by
      `shtring_create_max_allocation`; a text of more characters than half the bytes of the first
      generation is refused for good. */
  method Create(cstr: string, firstGenerationSize: nat) returns (shtr: Option<Shtring>, announced: nat)
    ensures shtr.Some? <==> |cstr| <= firstGenerationSize / 2
    ensures shtr.Some? ==> Valid(shtr.value) && Value(shtr.value) == cstr
    ensures shtr.Some? ==> announced == 5 + if shtr.value.tree.None? then 0 else WordsOf(shtr.value.tree.value)
    ensures shtr.Some? ==> IsCreated(shtr.value, cstr)
  {
    var chunks, height, total := TreeSize(|cstr|);
    announced := total;
    if |cstr| > firstGenerationSize / 2 {
      return None, announced;
    }
    if height == 0 {
      return Some(Shtring(0, 0, 0, None)), announced;
    }
    var tree, rest := BuildTree(height, cstr);
    assert cstr[..|cstr|] == cstr;
    BuiltKeeps(height, cstr);
    shtr := Some(Shtring(0, |cstr|, height, Some(tree)));
  }

  // ---------- a catenation that aborts ----------

  lemma {:induction false} CapacityGrows(g: nat, h: nat)
    requires g <= h
    ensures Capacity(g) <= Capacity(h)
  {
    if g < h {
      CapacityGrows(g, h - 1);
    }
  }

  /** The height of a created shtring, from bounds on its length. */
  lemma HeightIs(s: Shtring, cstr: string, h: nat)
    requires IsCreated(s, cstr) && h > 1 && Capacity(h - 1) < |cstr| <= Capacity(h)
    ensures s == Shtring(0, |cstr|, h, Some(Built(h, cstr)))
    ensures WellFormed(Built(h, cstr), h) && Text(Built(h, cstr)) == cstr
  {
    hide Built, WellFormed, Text;
    BuiltKeeps(s.height, cstr);
    if s.height < h {
      CapacityGrows(s.height, h - 1);
    } else if s.height > h {
      CapacityGrows(h, s.height - 1);
    }
  }

  lemma KidsOf(h: nat, text: string)
    requires h > 1
    ensures Built(h, text).Node? && Built(h, text).kids == BuiltKids(h - 1, text)
  {
  }

  lemma OnlyKid(h: nat, text: string)
    requires h > 1 && 0 < |text| <= Capacity(h - 1)
    ensures Built(h, text).Node? && Built(h, text).kids == [Built(h - 1, text)]
  {
    hide Built;
    KidsOf(h, text);
    KidInFront(h - 1, text);
    assert text[..|text|] == text && text[|text|..] == [];
  }

  lemma TwoKids(h: nat, text: string)
    requires h > 1 && Capacity(h - 1) < |text| <= 2 * Capacity(h - 1)
    ensures var n := Capacity(h - 1);
            Built(h, text).Node? && Built(h, text).kids == [Built(h - 1, text[..n]), Built(h - 1, text[n..])]
  {
    hide Built;
    KidsOf(h, text);
    KidInFront(h - 1, text);
    OnlyKid(h, text[Capacity(h - 1)..]);
    KidsOf(h, text[Capacity(h - 1)..]);
  }

  lemma Capacities()
    ensures Capacity(1) == 32 && Capacity(2) == 256 && Capacity(3) == 2048 && Capacity(4) == 16384
  {
  }

  /** The shtring made of 2049 characters has a node with one child on its right side, as 2048 fill a tree of
      height 3; behind it one of 33 characters cannot be put, although there is room. */
  lemma CreatedAborts(s1: Shtring, cstr1: string, s2: Shtring, cstr2: string)
    requires IsCreated(s1, cstr1) && |cstr1| == 2049 && IsCreated(s2, cstr2) && |cstr2| == 33
    ensures s1.tree.Some? && s2.tree.Some? && Valid(s1) && Valid(s2)
    ensures Aborts(s1.tree.value, s1.height, s2.tree.value, s2.height, true)
  {
    hide Built, Capacity, IsCreated, Text, BuiltKids;
    Capacities();
    HeightIs(s1, cstr1, 4);
    HeightIs(s2, cstr2, 2);
    var p1, p2, last := s1.tree.value, s2.tree.value, cstr1[2048..];
    TwoKids(4, cstr1);
    OnlyKid(3, last);
    OnlyKid(2, last);
    TwoKids(2, cstr2);
    ThinOfHeight4(p1, p2);
  }

  lemma ThinOfHeight4(p1: Tree, p2: Tree)
    requires WellFormed(p1, 4) && WellFormed(p2, 2)
    requires var q := p1.kids[|p1.kids| - 1]; |q.kids| == 1 && |q.kids[0].kids| + |p2.kids| <= MAX_SHTRING_NODE_CHILDREN
    ensures Aborts(p1, 4, p2, 2, true)
  {
    var q := p1.kids[|p1.kids| - 1];
    hide WellFormed;
    assert HasRoom(p1, 4, p2, 2) == HasRoom(q, 3, p2, 2) == HasRoom(q.kids[0], 2, p2, 2);
    assert HasOnlyChild(q, 3, 2, true);
  }
}
