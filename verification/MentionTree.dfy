/** The rewrite of a document tree that turns mention tokens in prose into chips,
    leaving code alone: its meaning on tree values
    (apps/web/src/components/Markdown.tsx). */
module MentionTree {
  import opened Options
  import opened Utf16
  import Mentions

  datatype Tag = Code | Pre | SpeakerMention | OtherTag(name: Text)

  /** What a node is, apart from its children; of an element's properties only
      `label` matters here, the name in a chip. */
  datatype Shape = Element(tag: Tag, name: Option<Text>, others: map<Text, Text>) | Plain(kind: Text)

  datatype Tree =
    | Words(value: Text)
    | Parent(shape: Shape, kids: seq<Tree>)
    | Childless(shape: Shape)

  predicate Protected(shape: Shape) {
    shape.Element? && (shape.tag == Code || shape.tag == Pre)
  }

  /** `value.includes('@[')`. */
  predicate MayMention(value: Text) {
    IndexOf([Mentions.AT, Mentions.OPEN], value, 0) != -1
  }

  const NO_PROPERTIES: map<Text, Text> := map[]

  function Chip(name: Text): Tree {
    Parent(Element(SpeakerMention, Some(name), NO_PROPERTIES), [])
  }

  function Grow(part: Mentions.Part): Tree {
    match part
    case Prose(value) => Words(value)
    case Mention(name) => Chip(name)
  }

  function GrowAll(parts: seq<Mentions.Part>): seq<Tree> {
    if parts == [] then [] else [Grow(parts[0])] + GrowAll(parts[1..])
  }

  function Rewrite(t: Tree): Tree
    decreases t, 0
  {
    match t
    case Parent(shape, kids) => if Protected(shape) then t else Parent(shape, RewriteKids(kids))
    case _ => t
  }

  function RewriteKid(kid: Tree): seq<Tree>
    decreases kid, 1
  {
    if kid.Words? && MayMention(kid.value) then GrowAll(Mentions.Split(kid.value)) else [Rewrite(kid)]
  }

  function RewriteKids(kids: seq<Tree>): seq<Tree>
    decreases kids, 2
  {
    if kids == [] then [] else RewriteKid(kids[0]) + RewriteKids(kids[1..])
  }

  // ---- what the rewrite keeps ----

  /** The text of a tree, with every chip printed back as its token. */
  function Source(t: Tree): Text {
    match t
    case Words(value) => value
    case Childless(_) => []
    case Parent(shape, kids) =>
      (match shape
       case Element(SpeakerMention, Some(name), _) => [0x40, 0x5B] + name + [0x5D]
       case _ => [])
      + Sources(kids)
  }

  function Sources(kids: seq<Tree>): Text {
    if kids == [] then [] else Source(kids[0]) + Sources(kids[1..])
  }

  /** The outermost `code` and `pre` subtrees, in document order. */
  function CodeBlocks(t: Tree): seq<Tree> {
    match t
    case Parent(Element(Code, _, _), _) => [t]
    case Parent(Element(Pre, _, _), _) => [t]
    case Parent(_, kids) => AllCodeBlocks(kids)
    case _ => []
  }

  function AllCodeBlocks(kids: seq<Tree>): seq<Tree> {
    if kids == [] then [] else CodeBlocks(kids[0]) + AllCodeBlocks(kids[1..])
  }

  /** A tree with each maximal stretch of text nodes and chips read as what it prints,
      code blocks whole, and every other node in its place. */
  datatype Bone = Stretch(text: Text) | Whole(code: Tree) | Joint(shape: Shape, bones: seq<Bone>) | Leaf(shape: Shape)

  /** A text node, or a chip just as the rewrite makes them. */
  predicate Inline(t: Tree) {
    match t
    case Words(_) => true
    case Parent(Element(SpeakerMention, Some(_), others), kids) => others == map[] && kids == []
    case _ => false
  }

  function Skeleton(t: Tree): Bone
    decreases t, 0
  {
    if Inline(t) then Stretch(Source(t))
    else
      match t
      case Parent(Element(Code, _, _), _) => Whole(t)
      case Parent(Element(Pre, _, _), _) => Whole(t)
      case Parent(shape, kids) => Joint(shape, Skeletons(kids))
      case Childless(shape) => Leaf(shape)
  }

  function Skeletons(kids: seq<Tree>): seq<Bone>
    decreases kids, 1
  {
    if kids == [] then [] else InFront(Skeleton(kids[0]), Skeletons(kids[1..]))
  }

  /** Stretches that meet become one. */
  function InFront(bone: Bone, rest: seq<Bone>): seq<Bone> {
    if bone.Stretch? && rest != [] && rest[0].Stretch? then [Stretch(bone.text + rest[0].text)] + rest[1..]
    else [bone] + rest
  }

  ghost predicate NoToken(value: Text) {
    forall p, e :: !Mentions.TokenAt(value, p, e)
  }

  /** No text below the root and outside code still holds a complete token. */
  ghost predicate Tokenless(t: Tree) {
    match t
    case Parent(Element(Code, _, _), _) => true
    case Parent(Element(Pre, _, _), _) => true
    case Parent(_, kids) => AllTokenless(kids)
    case _ => true
  }

  ghost predicate AllTokenless(kids: seq<Tree>) {
    forall k :: 0 <= k < |kids| ==> (kids[k].Words? ==> NoToken(kids[k].value)) && Tokenless(kids[k])
  }

  lemma {:induction false} SourcesAppend(a: seq<Tree>, b: seq<Tree>)
    ensures Sources(a + b) == Sources(a) + Sources(b)
  {
    hide Source;
    if a == [] {
      assert a + b == b;
    } else {
      SourcesAppend(a[1..], b);
      assert (a + b)[1..] == a[1..] + b && (a + b)[0] == a[0];
      Assoc(Source(a[0]), Sources(a[1..]), Sources(b));
    }
  }

  lemma {:induction false} CodeBlocksAppend(a: seq<Tree>, b: seq<Tree>)
    ensures AllCodeBlocks(a + b) == AllCodeBlocks(a) + AllCodeBlocks(b)
  {
    hide CodeBlocks;
    if a == [] {
      assert a + b == b;
    } else {
      CodeBlocksAppend(a[1..], b);
      assert (a + b)[1..] == a[1..] + b && (a + b)[0] == a[0];
      Assoc(CodeBlocks(a[0]), AllCodeBlocks(a[1..]), AllCodeBlocks(b));
    }
  }

  lemma {:induction false} GrownParts(parts: seq<Mentions.Part>)
    ensures Sources(GrowAll(parts)) == Mentions.Print(parts)
    ensures AllCodeBlocks(GrowAll(parts)) == []
    ensures |GrowAll(parts)| == |parts| && forall k :: 0 <= k < |parts| ==> GrowAll(parts)[k] == Grow(parts[k])
  {
    if parts != [] {
      GrownParts(parts[1..]);
      var all := GrowAll(parts);
      assert all[0] == Grow(parts[0]) && all[1..] == GrowAll(parts[1..]);
      assert Source(Grow(parts[0])) == Mentions.Shown(parts[0]);
      assert CodeBlocks(Grow(parts[0])) == [];
    }
  }

  lemma StretchesMeet(a: Text, b: Text, rest: seq<Bone>)
    ensures InFront(Stretch(a), InFront(Stretch(b), rest)) == InFront(Stretch(a + b), rest)
  {
    if rest != [] && rest[0].Stretch? {
      Assoc(a, b, rest[0].text);
      assert ([Stretch(b + rest[0].text)] + rest[1..])[1..] == rest[1..];
    } else {
      assert ([Stretch(b)] + rest)[1..] == rest;
    }
  }

  lemma GrownIsInline(part: Mentions.Part)
    ensures Inline(Grow(part)) && Skeleton(Grow(part)) == Stretch(Mentions.Shown(part))
  {
    assert Source(Grow(part)) == Mentions.Shown(part);
  }

  lemma GrownFirst(parts: seq<Mentions.Part>, rest: seq<Tree>)
    requires parts != []
    ensures Skeletons(GrowAll(parts) + rest) ==
            InFront(Stretch(Mentions.Shown(parts[0])), Skeletons(GrowAll(parts[1..]) + rest))
    ensures Mentions.Print(parts) == Mentions.Shown(parts[0]) + Mentions.Print(parts[1..])
  {
    hide Inline, InFront, Source, Skeleton;
    var kids := GrowAll(parts) + rest;
    GrownIsInline(parts[0]);
    assert kids[0] == Grow(parts[0]) && kids[1..] == GrowAll(parts[1..]) + rest;
  }

  lemma NothingGrown(rest: seq<Tree>)
    ensures GrowAll([]) + rest == rest && Mentions.Print([]) == []
  {
  }

  /** The text nodes and chips grown from prose stand as one stretch before the rest. */
  lemma {:induction false} GrownStretch(parts: seq<Mentions.Part>, rest: seq<Tree>)
    requires parts != []
    ensures Skeletons(GrowAll(parts) + rest) == InFront(Stretch(Mentions.Print(parts)), Skeletons(rest))
  {
    hide *;
    GrownFirst(parts, rest);
    if |parts| == 1 {
      NothingGrown(rest);
      assert parts[1..] == [] && Mentions.Shown(parts[0]) + [] == Mentions.Shown(parts[0]);
    } else {
      GrownStretch(parts[1..], rest);
      StretchesMeet(Mentions.Shown(parts[0]), Mentions.Print(parts[1..]), Skeletons(rest));
    }
  }

  lemma RewriteKeepsInline(t: Tree)
    ensures Inline(t) ==> Rewrite(t) == t
    ensures Inline(Rewrite(t)) <==> Inline(t)
  {
    if t.Parent? && t.kids != [] {
      RewriteKidIsSome(t.kids[0]);
    }
  }

  lemma RewriteKidIsSome(kid: Tree)
    ensures RewriteKid(kid) != []
  {
    if kid.Words? && MayMention(kid.value) {
      var parts := Mentions.Split(kid.value);
      Mentions.SplitIsCanonical(kid.value, 0);
      assert kid.value[0..] == kid.value;
      GrownParts(parts);
    }
  }

  lemma {:induction false} RewriteKeepsSkeleton(t: Tree)
    ensures Skeleton(Rewrite(t)) == Skeleton(t)
    decreases t, 0
  {
    hide Inline;
    RewriteKeepsInline(t);
    if !Inline(t) && t.Parent? && !Protected(t.shape) {
      RewriteKeepsSkeletons(t.kids);
    }
  }

  lemma {:induction false} RewriteKeepsSkeletons(kids: seq<Tree>)
    ensures Skeletons(RewriteKids(kids)) == Skeletons(kids)
    decreases kids, 1
  {
    if kids != [] {
      var kid, rest := kids[0], RewriteKids(kids[1..]);
      RewriteKeepsSkeletons(kids[1..]);
      if kid.Words? && MayMention(kid.value) {
        var parts := Mentions.Split(kid.value);
        Mentions.SplitIsCanonical(kid.value, 0);
        assert kid.value[0..] == kid.value;
        GrownStretch(parts, rest);
      } else {
        RewriteKeepsSkeleton(kid);
        assert RewriteKids(kids) == [Rewrite(kid)] + rest;
        assert ([Rewrite(kid)] + rest)[1..] == rest;
      }
    }
  }

  lemma GrownIsClean(parts: seq<Mentions.Part>, k: nat)
    requires Mentions.Canonical(parts) && k < |parts|
    ensures var kid := Grow(parts[k]); (kid.Words? ==> NoToken(kid.value)) && Tokenless(kid)
  {
    Mentions.CanonicalPartsAreClean(parts, k);
    if parts[k].Prose? {
      Mentions.NoMatchNoToken(parts[k].value);
    }
  }

  lemma RewrittenWords(value: Text)
    ensures var kids := GrowAll(Mentions.Split(value));
            && Sources(kids) == value && AllCodeBlocks(kids) == [] && AllTokenless(kids)
  {
    hide NoToken, Tokenless, Source;
    var parts := Mentions.Split(value);
    Mentions.SplitIsCanonical(value, 0);
    assert value[0..] == value;
    GrownParts(parts);
    forall k | 0 <= k < |parts|
      ensures var kid := GrowAll(parts)[k]; (kid.Words? ==> NoToken(kid.value)) && Tokenless(kid)
    {
      GrownIsClean(parts, k);
    }
  }

  /** The rewrite keeps the text, every code block and the place of every other node,
      and leaves no complete token below the root outside code. */
  lemma RewriteKeepsMeaning(t: Tree)
    ensures Source(Rewrite(t)) == Source(t)
    ensures CodeBlocks(Rewrite(t)) == CodeBlocks(t)
    ensures Skeleton(Rewrite(t)) == Skeleton(t)
    ensures Tokenless(Rewrite(t))
  {
    hide *;
    RewriteKeepsText(t);
    RewriteKeepsSkeleton(t);
  }

  lemma {:induction false} RewriteKeepsText(t: Tree)
    ensures Source(Rewrite(t)) == Source(t)
    ensures CodeBlocks(Rewrite(t)) == CodeBlocks(t)
    ensures Tokenless(Rewrite(t))
    decreases t, 0
  {
    if t.Parent? && !Protected(t.shape) {
      RewriteKidsKeepMeaning(t.kids);
    }
  }

  lemma {:induction false} RewriteKidKeepsMeaning(kid: Tree)
    ensures Sources(RewriteKid(kid)) == Source(kid)
    ensures AllCodeBlocks(RewriteKid(kid)) == CodeBlocks(kid)
    ensures AllTokenless(RewriteKid(kid))
    decreases kid, 1
  {
    if kid.Words? && MayMention(kid.value) {
      RewrittenWords(kid.value);
    } else {
      RewriteKeepsText(kid);
      var only := [Rewrite(kid)];
      assert only[0] == Rewrite(kid) && only[1..] == [];
      if kid.Words? {
        NoOpeningNoToken(kid.value);
      }
    }
  }

  lemma TokenOpens(value: Text, p: nat)
    requires Mentions.MatchEnd(value, p) != -1
    ensures OccursAt([Mentions.AT, Mentions.OPEN], value, p)
  {
    assert value[p..p + 2] == [Mentions.AT, Mentions.OPEN];
  }

  lemma NoOpeningNoToken(value: Text)
    requires !MayMention(value)
    ensures NoToken(value)
  {
    forall p: nat ensures Mentions.MatchEnd(value, p) == -1 {
      if Mentions.MatchEnd(value, p) != -1 {
        TokenOpens(value, p);
      }
    }
    Mentions.NoMatchNoToken(value);
  }

  lemma {:induction false} RewriteKidsKeepMeaning(kids: seq<Tree>)
    ensures Sources(RewriteKids(kids)) == Sources(kids)
    ensures AllCodeBlocks(RewriteKids(kids)) == AllCodeBlocks(kids)
    ensures AllTokenless(RewriteKids(kids))
    decreases kids, 2
  {
    if kids != [] {
      RewriteKidKeepsMeaning(kids[0]);
      RewriteKidsKeepMeaning(kids[1..]);
      SourcesAppend(RewriteKid(kids[0]), RewriteKids(kids[1..]));
      CodeBlocksAppend(RewriteKid(kids[0]), RewriteKids(kids[1..]));
    }
  }

  // ---- a second pass changes nothing ----

  lemma {:induction false} TokenlessIsFixed(t: Tree)
    requires Tokenless(t)
    ensures Rewrite(t) == t
    decreases t, 0
  {
    if t.Parent? && !Protected(t.shape) {
      TokenlessKidsAreFixed(t.kids);
    }
  }

  lemma {:induction false} TokenlessKidsAreFixed(kids: seq<Tree>)
    requires AllTokenless(kids)
    ensures RewriteKids(kids) == kids
    decreases kids, 2
  {
    if kids != [] {
      hide Tokenless, NoToken, RewriteKid;
      TokenlessKidIsFixed(kids[0]);
      assert AllTokenless(kids[1..]) by {
        forall k | 0 <= k < |kids| - 1 ensures kids[1..][k] == kids[k + 1] {}
      }
      TokenlessKidsAreFixed(kids[1..]);
    }
  }

  lemma TokenlessKidIsFixed(kid: Tree)
    requires (kid.Words? ==> NoToken(kid.value)) && Tokenless(kid)
    ensures RewriteKid(kid) == [kid]
    decreases kid, 1
  {
    if kid.Words? && MayMention(kid.value) {
      NoTokenSplitsToItself(kid.value);
    } else {
      TokenlessIsFixed(kid);
    }
  }

  lemma NoTokenSplitsToItself(value: Text)
    requires NoToken(value) && MayMention(value)
    ensures GrowAll(Mentions.Split(value)) == [Words(value)]
  {
    Mentions.NoMatchNoToken(value);
    Mentions.NothingToSplit(value);
    GrownParts([Mentions.Prose(value)]);
  }

  /** A tree is a fixed point exactly when it holds no complete token below the
      root outside code; in particular one pass is enough. */
  lemma RewriteIsIdempotent(t: Tree)
    ensures Rewrite(Rewrite(t)) == Rewrite(t)
    ensures Rewrite(t) == t <==> Tokenless(t)
  {
    RewriteKeepsMeaning(t);
    TokenlessIsFixed(Rewrite(t));
    if Tokenless(t) {
      TokenlessIsFixed(t);
    }
  }
}
