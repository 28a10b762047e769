/** The small display rules both listing pages share: the five-cell star row,
    the tag chips with their "+N more" overflow chip, and avatar initials. */
module Display {
  import opened Text

  // ---- star row ----

  /** The three fills a star cell can take. */
  datatype StarCell = Full | Half | Empty

  /** The fill of cell `i` for a rating: full below the whole part, half below the
      rating itself, empty otherwise. */
  function Cell(rating: real, i: int): (c: StarCell)
    ensures c == Full <==> i < rating.Floor
    ensures c == Half <==> rating.Floor <= i && (i as real) < rating
    ensures c == Empty <==> rating <= i as real
  {
    if i < rating.Floor then Full
    else if (i as real) < rating then Half
    else Empty
  }

  /** `renderStars`: one cell for each of the indices 0 to 4. */
  function StarRow(rating: real): (r: seq<StarCell>)
    ensures |r| == 5
    ensures forall i :: 0 <= i < 5 ==> r[i] == Cell(rating, i)
  {
    seq(5, i => Cell(rating, i))
  }

  /** Full cells come first, then at most one half cell, then the empty ones. */
  ghost predicate Arranged(r: seq<StarCell>) {
    forall i, j :: 0 <= i < j < |r| ==>
      (r[j] == Full ==> r[i] == Full) && (r[j] == Half ==> r[i] == Full)
  }

  /** The star row is arranged: full cells, then at most one half cell, then empty ones. */
  lemma StarRowArranged(rating: real)
    ensures Arranged(StarRow(rating))
  {
  }

  /** `n` copies of one cell. */
  function Repeat(c: StarCell, n: nat): (r: seq<StarCell>)
    ensures |r| == n && forall i :: 0 <= i < n ==> r[i] == c
  {
    seq(n, _ => c)
  }

  /** A run of `n` copies of `c` holds `c` exactly `n` times and nothing else. */
  lemma {:induction false} RepeatCount(c: StarCell, n: nat)
    ensures forall d :: multiset(Repeat(c, n))[d] == if d == c then n else 0
  {
    if n > 0 {
      RepeatCount(c, n - 1);
      assert Repeat(c, n) == Repeat(c, n - 1) + [c];
    }
  }

  /** For a rating between 0 and 5 the star row is a run of full cells as long as the
      whole part of the rating, one half cell exactly when the rating has a fractional
      part, and empty cells for the rest; so those are also the counts of each fill. */
  lemma StarRowCounts(rating: real)
    requires 0.0 <= rating <= 5.0
    ensures var h := if rating == rating.Floor as real then 0 else 1;
      && StarRow(rating) == Repeat(Full, rating.Floor) + Repeat(Half, h) + Repeat(Empty, 5 - rating.Floor - h)
      && multiset(StarRow(rating))[Full] == rating.Floor
      && multiset(StarRow(rating))[Half] == h
      && multiset(StarRow(rating))[Empty] == 5 - rating.Floor - h
  {
    var f := rating.Floor;
    var h := if rating == f as real then 0 else 1;
    assert 0 <= f + h <= 5;
    var shape := Repeat(Full, f) + Repeat(Half, h) + Repeat(Empty, 5 - f - h);
    assert StarRow(rating) == shape;
    RepeatCount(Full, f);
    RepeatCount(Half, h);
    RepeatCount(Empty, 5 - f - h);
  }

  /** A rating of at least 5 fills every cell; a rating of 0 or less fills none. */
  lemma StarRowExtremes(rating: real)
    ensures rating >= 5.0 ==> StarRow(rating) == [Full, Full, Full, Full, Full]
    ensures rating <= 0.0 ==> StarRow(rating) == [Empty, Empty, Empty, Empty, Empty]
  {
    var r := StarRow(rating);
    assert r == [Cell(rating, 0), Cell(rating, 1), Cell(rating, 2), Cell(rating, 3), Cell(rating, 4)];
  }

  // ---- tag chips ----

  /** A chip under a book card: a tag, or the count of tags not shown. */
  datatype Chip = TagChip(tag: string) | MoreChip(hidden: nat)

  /** The number of tags shown as chips. */
  const ShownTags := 3

  /** One tag chip per tag, in order. */
  function AsChips(tags: seq<string>): (r: seq<Chip>)
    ensures |r| == |tags| && forall i :: 0 <= i < |r| ==> r[i] == TagChip(tags[i])
  {
    if tags == [] then [] else [TagChip(tags[0])] + AsChips(tags[1..])
  }

  /** The chips for `tags`: the tags of `tags.slice(0, 3)`, then a "+N more" chip
      when there are more than three tags. */
  function TagChips(tags: seq<string>): (r: seq<Chip>)
    ensures |tags| <= ShownTags ==> |r| == |tags|
    ensures |tags| > ShownTags ==> |r| == ShownTags + 1 && r[ShownTags] == MoreChip(|tags| - ShownTags)
    ensures forall i :: 0 <= i < |r| && i < |tags| && i < ShownTags ==> r[i] == TagChip(tags[i])
  {
    AsChips(tags[..if |tags| <= ShownTags then |tags| else ShownTags])
      + (if |tags| > ShownTags then [MoreChip(|tags| - ShownTags)] else [])
  }

  /** The tags a chip row names, one per tag chip. */
  function ChipTags(r: seq<Chip>): seq<string> {
    if r == [] then []
    else (if r[0].TagChip? then [r[0].tag] else []) + ChipTags(r[1..])
  }

  /** The tags hidden by the chips, as the "+N more" chip counts them (0 when there is none). */
  function Hidden(r: seq<Chip>): nat {
    if r == [] then 0
    else (if r[0].MoreChip? then r[0].hidden else 0) + Hidden(r[1..])
  }

  /** A row that starts with a tag chip. */
  lemma ChipRowCons(tag: string, rest: seq<Chip>)
    ensures ChipTags([TagChip(tag)] + rest) == [tag] + ChipTags(rest)
    ensures Hidden([TagChip(tag)] + rest) == Hidden(rest)
  {
    assert ([TagChip(tag)] + rest)[1..] == rest;
  }

  /** The tag chips of `tags`, followed by `rest`, name `tags` and then the tags of `rest`. */
  lemma {:induction false} AsChipsThen(tags: seq<string>, rest: seq<Chip>)
    ensures ChipTags(AsChips(tags) + rest) == tags + ChipTags(rest)
    ensures Hidden(AsChips(tags) + rest) == Hidden(rest)
  {
    if tags == [] {
      assert AsChips(tags) + rest == rest;
    } else {
      AsChipsThen(tags[1..], rest);
      var tail := AsChips(tags[1..]) + rest;
      assert AsChips(tags) + rest == [TagChip(tags[0])] + tail;
      ChipRowCons(tags[0], tail);
      assert tags == [tags[0]] + tags[1..];
    }
  }

  /** The chips account for every tag exactly once: the shown tags are a prefix of the
      tag list, and the shown ones plus the hidden count make up all of the tags. The
      overflow chip appears exactly when something is hidden. */
  lemma TagChipsCover(tags: seq<string>)
    ensures ChipTags(TagChips(tags)) == tags[..if |tags| <= ShownTags then |tags| else ShownTags]
    ensures |ChipTags(TagChips(tags))| + Hidden(TagChips(tags)) == |tags|
    ensures (exists i :: 0 <= i < |TagChips(tags)| && TagChips(tags)[i].MoreChip?) <==> |tags| > ShownTags
  {
    var n := if |tags| <= ShownTags then |tags| else ShownTags;
    var more: seq<Chip> := if |tags| > ShownTags then [MoreChip(|tags| - ShownTags)] else [];
    AsChipsThen(tags[..n], more);
    if |tags| > ShownTags {
      assert more[1..] == [];
      assert TagChips(tags)[ShownTags].MoreChip?;
    }
  }

  /** The text a chip shows: the tag itself, or `+{tags.length - 3} more`. */
  function ChipLabel(c: Chip): (s: string)
    ensures c.TagChip? ==> s == c.tag
    ensures c.MoreChip? ==> |s| > 6 && s[0] == '+' && s[|s| - 5..] == " more"
    ensures c.MoreChip? ==> s[1..|s| - 5] == DecimalString(c.hidden)
  {
    match c
    case TagChip(tag) => tag
    case MoreChip(hidden) => "+" + DecimalString(hidden) + " more"
  }

  /** The overflow label determines the hidden count. */
  lemma MoreLabelInjective(a: nat, b: nat)
    ensures ChipLabel(MoreChip(a)) == ChipLabel(MoreChip(b)) ==> a == b
  {
    DecimalStringInjective(a, b);
  }

  // ---- initials ----

  /** `String.prototype.split(" ")`: the pieces between single spaces, empty pieces
      included; the empty string gives one empty piece. */
  function Split(s: string): (r: seq<string>)
    ensures |r| >= 1
    ensures forall i :: 0 <= i < |r| ==> ' ' !in r[i]
  {
    if s == [] then [""]
    else if s[0] == ' ' then [""] + Split(s[1..])
    else
      var rest := Split(s[1..]);
      [[s[0]] + rest[0]] + rest[1..]
  }

  /** `Array.prototype.join(" ")`. */
  function Join(words: seq<string>): string
    requires |words| >= 1
  {
    if |words| == 1 then words[0] else words[0] + " " + Join(words[1..])
  }

  /** Joining the pieces of a split with single spaces gives back the string. */
  lemma {:induction false} JoinSplit(s: string)
    ensures Join(Split(s)) == s
  {
    if s != [] {
      JoinSplit(s[1..]);
      var rest := Split(s[1..]);
      if s[0] == ' ' {
        assert ([""] + rest)[1..] == rest;
      } else if |rest| == 1 {
        assert Join(rest) == rest[0];
      } else {
        assert ([[s[0]] + rest[0]] + rest[1..])[1..] == rest[1..];
        assert Join(rest) == rest[0] + " " + Join(rest[1..]);
      }
    }
  }

  /** A string without spaces is one piece. */
  lemma {:induction false} SplitSingle(w: string)
    requires ' ' !in w
    ensures Split(w) == [w]
  {
    if w != [] {
      assert w[1..] == [] || w[1..][0] in w;
      assert ' ' !in w[1..] by {
        forall k | 0 <= k < |w[1..]| ensures w[1..][k] != ' ' { assert w[1..][k] == w[k + 1] && w[k + 1] in w; }
      }
      SplitSingle(w[1..]);
      assert w[0] in w;
      assert w == [w[0]] + w[1..];
    }
  }

  /** A word without spaces, then a space, then more text: the word is the first piece. */
  lemma {:induction false} SplitWord(w: string, rest: string)
    requires ' ' !in w
    ensures Split(w + " " + rest) == [w] + Split(rest)
  {
    var s := w + " " + rest;
    if w == [] {
      assert s == " " + rest;
      assert s[1..] == rest;
    } else {
      assert s[1..] == w[1..] + " " + rest;
      assert ' ' !in w[1..] by {
        forall k | 0 <= k < |w[1..]| ensures w[1..][k] != ' ' { assert w[1..][k] == w[k + 1] && w[k + 1] in w; }
      }
      SplitWord(w[1..], rest);
      assert w[0] in w;
      assert s[0] == w[0];
      assert w == [w[0]] + w[1..];
    }
  }

  /** `.map((n) => n[0]).join("")`: the first character of every piece; an empty piece
      gives `undefined`, which `join` writes as nothing. */
  function Heads(words: seq<string>): (r: string)
    ensures |r| <= |words|
  {
    if words == [] then []
    else (if words[0] == [] then [] else [words[0][0]]) + Heads(words[1..])
  }

  /** The avatar initials of a name. Each piece contributes at most one initial, so
      there are no more initials than pieces, and none of them is a space. */
  function Initials(name: string): (r: string)
    ensures |r| <= |Split(name)|
    ensures ' ' !in r
  {
    HeadsBound(Split(name));
    Heads(Split(name))
  }

  /** The reference reading of initials: every character that is not a space and
      starts the string or follows a space; `afterSpace` says whether the
      character before `s` was a space (or there was none). */
  function WordStarts(s: string, afterSpace: bool): string {
    if s == [] then []
    else (if afterSpace && s[0] != ' ' then [s[0]] else []) + WordStarts(s[1..], s[0] == ' ')
  }

  /** Heads of a known first word. */
  lemma HeadsCons(w: string, rest: seq<string>)
    requires w != []
    ensures Heads([w] + rest) == [w[0]] + Heads(rest)
  {
    assert ([w] + rest)[1..] == rest;
  }

  /** The initials of two non-empty space-free words separated by a single space. */
  lemma InitialsOfTwoWords(a: string, b: string)
    requires a != [] && b != [] && ' ' !in a && ' ' !in b
    ensures Initials(a + " " + b) == [a[0], b[0]]
  {
    SplitWord(a, b);
    SplitSingle(b);
    HeadsCons(b, []);
    HeadsCons(a, [b]);
    assert [a] + [b] == [a, b];
  }

  /** The initials of three non-empty space-free words separated by single spaces. */
  lemma InitialsOfThreeWords(a: string, b: string, c: string)
    requires a != [] && b != [] && c != [] && ' ' !in a && ' ' !in b && ' ' !in c
    ensures Initials(a + " " + (b + " " + c)) == [a[0], b[0], c[0]]
  {
    SplitWord(a, b + " " + c);
    SplitWord(b, c);
    SplitSingle(c);
    HeadsCons(c, []);
    HeadsCons(b, [c]);
    HeadsCons(a, [b, c]);
    assert [b] + [c] == [b, c];
    assert [a] + [b, c] == [a, b, c];
  }

  /** Initials are exactly the characters that start a word. */
  lemma InitialsAreWordStarts(name: string)
    ensures Initials(name) == WordStarts(name, true)
  {
    HeadsOfSplit(name);
  }

  lemma {:induction false} HeadsOfSplit(s: string)
    ensures Heads(Split(s)) == WordStarts(s, true)
    ensures Heads(Split(s)[1..]) == WordStarts(s, false)
  {
    if s != [] {
      HeadsOfSplit(s[1..]);
      var rest := Split(s[1..]);
      if s[0] == ' ' {
        assert ([""] + rest)[1..] == rest;
      } else {
        assert ([[s[0]] + rest[0]] + rest[1..])[1..] == rest[1..];
        assert rest == [rest[0]] + rest[1..];
      }
    }
  }

  /** Pieces without spaces have heads without spaces. */
  lemma {:induction false} HeadsBound(words: seq<string>)
    requires forall i :: 0 <= i < |words| ==> ' ' !in words[i]
    ensures ' ' !in Heads(words)
  {
    if words != [] {
      HeadsBound(words[1..]);
      if words[0] != [] {
        assert words[0][0] in words[0];
      }
    }
  }
}
