/** The description a member's JSDoc blocks give it (index.ts:43-51). */
module JsDoc {
  import opened Wrappers

  /** The only tag name the loader reads. */
  const TagName := "typegraphql"

  /** A JSDoc tag `@name comment`; the comment is absent when the tag has no text. */
  datatype Tag = Tag(name: string, comment: Option<string>)

  /** One JSDoc block, with its tags in order. */
  datatype Doc = Doc(tags: seq<Tag>)

  /** What `${currentComment}` prints: the comment text, or the word
      `undefined` that a template literal prints for a missing comment. */
  function CommentText(c: Option<string>): (r: string)
    ensures r == "" ==> c == Some("")
  {
    match c
    case Some(s) => s
    case None => "undefined"
  }

  /** Some tag of the block is a `typegraphql` tag. */
  predicate HasTag(tags: seq<Tag>)
  {
    exists j :: 0 <= j < |tags| && tags[j].name == TagName
  }

  /** The value `currentComment` ends with after the inner `forEach` over a
      block's tags: every `typegraphql` tag overwrites it, so the last one wins. */
  function BlockComment(tags: seq<Tag>): (r: string)
    ensures r != "" ==> tags != []
  {
    if tags == [] then ""
    else if tags[|tags| - 1].name == TagName then CommentText(tags[|tags| - 1].comment)
    else BlockComment(tags[..|tags| - 1])
  }

  /** The `reduce` over the blocks: every block adds its comment and a newline. */
  function Description(docs: seq<Doc>): (r: string)
    ensures |r| >= |docs|
  {
    if docs == [] then ""
    else Description(docs[..|docs| - 1]) + BlockComment(docs[|docs| - 1].tags) + "\n"
  }

  /** The comment of a block is that of its last `typegraphql` tag. */
  lemma {:induction false} LastTagWins(tags: seq<Tag>, k: nat)
    requires k < |tags| && tags[k].name == TagName
    requires forall j :: k < j < |tags| ==> tags[j].name != TagName
    ensures BlockComment(tags) == CommentText(tags[k].comment)
  {
    if k < |tags| - 1 {
      LastTagWins(tags[..|tags| - 1], k);
    }
  }

  /** A block without a `typegraphql` tag contributes an empty comment. */
  lemma {:induction false} NoTagNoComment(tags: seq<Tag>)
    requires forall j :: 0 <= j < |tags| ==> tags[j].name != TagName
    ensures BlockComment(tags) == ""
  {
    if tags != [] {
      NoTagNoComment(tags[..|tags| - 1]);
    }
  }

  /** A non-empty comment comes from some `typegraphql` tag of the block. */
  lemma {:induction false} CommentNeedsTag(tags: seq<Tag>)
    ensures BlockComment(tags) != "" ==> HasTag(tags)
  {
    if tags != [] && tags[|tags| - 1].name != TagName {
      CommentNeedsTag(tags[..|tags| - 1]);
      if BlockComment(tags) != "" {
        var j :| 0 <= j < |tags| - 1 && tags[..|tags| - 1][j].name == TagName;
        assert tags[j].name == TagName;
      }
    }
  }

  /** The description of consecutive runs of blocks is the concatenation of
      theirs: block by block, in order, comment followed by a newline. */
  lemma {:induction false} DescriptionConcat(a: seq<Doc>, b: seq<Doc>)
    ensures Description(a + b) == Description(a) + Description(b)
  {
    if b == [] {
      assert a + b == a;
    } else {
      var b', last := b[..|b| - 1], b[|b| - 1];
      assert b == b' + [last];
      assert a + b == (a + b') + [last];
      DescriptionSnoc(a + b', last);
      DescriptionSnoc(b', last);
      DescriptionConcat(a, b');
      var p, q, x := Description(a), Description(b'), BlockComment(last.tags) + "\n";
      assert (p + q) + x == p + (q + x);
    }
  }

  /** One more block adds its comment and a newline at the end. */
  lemma DescriptionSnoc(docs: seq<Doc>, doc: Doc)
    ensures Description(docs + [doc]) == Description(docs) + (BlockComment(doc.tags) + "\n")
  {
    assert (docs + [doc])[..|docs|] == docs;
    var p, c := Description(docs), BlockComment(doc.tags);
    assert p + c + "\n" == p + (c + "\n");
  }

  /** The contribution of one block. */
  lemma OneBlock(doc: Doc)
    ensures Description([doc]) == BlockComment(doc.tags) + "\n"
  {
    assert [doc][..0] == [];
  }

  /** Every block adds at least its newline, so the description is empty
      exactly when the member has no JSDoc block. */
  lemma {:induction false} DescriptionEmptyIff(docs: seq<Doc>)
    ensures |Description(docs)| >= |docs|
    ensures Description(docs) == "" <==> docs == []
  {
    if docs != [] {
      DescriptionEmptyIff(docs[..|docs| - 1]);
    }
  }

  /** Two blocks tagged `a` and `b` give the description "a\nb\n". */
  lemma TwoBlocks(a: string, b: string)
    ensures Description([Doc([Tag(TagName, Some(a))]), Doc([Tag(TagName, Some(b))])]) == a + "\n" + b + "\n"
  {
    var da, db := Doc([Tag(TagName, Some(a))]), Doc([Tag(TagName, Some(b))]);
    assert [da, db] == [da] + [db];
    DescriptionConcat([da], [db]);
    OneBlock(da);
    OneBlock(db);
  }

  /** The `reduce` of index.ts:43-51 with its inner `forEach`, as loops. */
  method ExtractDescription(docs: seq<Doc>) returns (description: string)
    ensures description == Description(docs)
  {
    description := "";
    var i := 0;
    while i < |docs|
      invariant 0 <= i <= |docs|
      invariant description == Description(docs[..i])
    {
      var tags := docs[i].tags;
      var currentComment := "";
      var j := 0;
      while j < |tags|
        invariant 0 <= j <= |tags|
        invariant currentComment == BlockComment(tags[..j])
      {
        if tags[j].name == TagName {
          currentComment := CommentText(tags[j].comment);
        }
        assert tags[..j + 1][..j] == tags[..j];
        j := j + 1;
      }
      assert tags[..j] == tags;
      assert docs[..i + 1][..i] == docs[..i];
      description := description + currentComment + "\n";
      i := i + 1;
    }
    assert docs[..i] == docs;
  }
}
