/** How `create_new_page` names an article and which header strings
    `write_page` puts into it. The random choice of topic and type, the
    generated body and the current date arrive as parameters. */
module Naming {
  import opened Strings

  /** The fixed topic list of `create_new_page`. */
  datatype Topic = AI | Cybersecurity | CloudComputing | MobileTech | Gaming

  /** The fixed page-type list of `create_new_page`. */
  datatype PageType = Tutorial | News | Analysis | Review | Comparison

  function TopicName(t: Topic): string
  {
    match t
    case AI => "AI"
    case Cybersecurity => "Cybersecurity"
    case CloudComputing => "Cloud Computing"
    case MobileTech => "Mobile Tech"
    case Gaming => "Gaming"
  }

  function TypeName(p: PageType): string
  {
    match p
    case Tutorial => "tutorial"
    case News => "news"
    case Analysis => "analysis"
    case Review => "review"
    case Comparison => "comparison"
  }

  /** `topic.lower().replace(' ', '-')` */
  function Slug(topic: string): (r: string)
    ensures |r| == |topic|
    ensures ' ' !in r
  {
    ReplaceChar(Lower(topic), ' ', '-')
  }

  /** The slug has one character per character of the topic, no spaces, no
      upper-case letters, and a hyphen exactly where the topic had a space or
      a hyphen. */
  lemma SlugShape(topic: string)
    ensures |Slug(topic)| == |topic|
    ensures ' ' !in Slug(topic)
    ensures forall i :: 0 <= i < |topic| ==> !IsUpperAscii(Slug(topic)[i])
    ensures forall i :: 0 <= i < |topic| ==> (Slug(topic)[i] == '-' <==> topic[i] == ' ' || topic[i] == '-')
  {
  }

  /** The file name built by `create_new_page`. */
  function FileName(pageType: string, topic: string, date: string): (r: string)
    ensures |r| == |pageType| + |topic| + |date| + 7
    ensures r[..|pageType|] == pageType && r[|pageType|] == '-'
    ensures r[|r| - 5..] == ".html"
  {
    pageType + "-" + Slug(topic) + "-" + date + ".html"
  }

  /** `page_type.title()`, the type as `write_page` receives it. */
  function DisplayType(p: PageType): string
  {
    Title(TypeName(p))
  }

  /** The parts of a written page that the model keeps: the file it is written
      to, the description meta, the `<title>`, the `<h1>`, the category line
      and the unescaped body. */
  datatype Page = Page(
    file: string,
    description: string,
    title: string,
    heading: string,
    category: string,
    body: string)

  /** `write_page(filename, content, page_type, topic)` */
  function WritePage(filename: string, content: string, pageType: string, topic: string): (r: Page)
    ensures r.file == filename && r.body == content && r.category == topic
    ensures r.title == r.heading + " - TechDaily"
    ensures |r.heading| == |topic| + 1 + |pageType|
    ensures r.heading[..|topic|] == topic && r.heading[|topic|] == ' ' && r.heading[|topic| + 1..] == pageType
    ensures |r.description| == |pageType| + |topic| + 22
    ensures r.description[..7] == "Latest " && r.description[7..7 + |pageType|] == pageType
    ensures r.description[7 + |pageType|..|r.description| - 8] == " about " + topic
    ensures r.description[|r.description| - 8..] == " in tech"
  {
    Page(
      filename,
      "Latest " + pageType + " about " + topic + " in tech",
      topic + " " + pageType + " - TechDaily",
      topic + " " + pageType,
      topic,
      content)
  }

  /** `create_new_page`, with the random choices, the generated article and
      today's `%Y%m%d` stamp as parameters; the file name it returns is the
      `file` of the page it writes. */
  function CreateNewPage(pageType: PageType, topic: Topic, date: string, content: string): (r: Page)
    ensures r.file == FileName(TypeName(pageType), TopicName(topic), date)
    ensures r.body == content && r.category == TopicName(topic)
    ensures r.title == r.heading + " - TechDaily"
  {
    var filename := FileName(TypeName(pageType), TopicName(topic), date);
    WritePage(filename, content, DisplayType(pageType), TopicName(topic))
  }

  /** The title-cased type that appears in the page. */
  function TypeLabel(p: PageType): string
  {
    match p
    case Tutorial => "Tutorial"
    case News => "News"
    case Analysis => "Analysis"
    case Review => "Review"
    case Comparison => "Comparison"
  }

  lemma TypeNameIsLowerWord(p: PageType)
    ensures |TypeName(p)| > 0 && IsLowerWord(TypeName(p))
    ensures '-' !in TypeName(p)
  {
    var w := TypeName(p);
    match p
    case Tutorial => assert w == "tutorial";
    case News => assert w == "news";
    case Analysis => assert w == "analysis";
    case Review => assert w == "review";
    case Comparison => assert w == "comparison";
  }

  lemma LabelCapitalisesTypeName(p: PageType)
    ensures TypeLabel(p) == [ToUpperChar(TypeName(p)[0])] + TypeName(p)[1..]
  {
    match p
    case Tutorial =>
      assert "tutorial"[1..] == "utorial";
      assert ['T'] + "utorial" == "Tutorial";
    case News =>
      assert "news"[1..] == "ews";
      assert ['N'] + "ews" == "News";
    case Analysis =>
      assert "analysis"[1..] == "nalysis";
      assert ['A'] + "nalysis" == "Analysis";
    case Review =>
      assert "review"[1..] == "eview";
      assert ['R'] + "eview" == "Review";
    case Comparison =>
      assert "comparison"[1..] == "omparison";
      assert ['C'] + "omparison" == "Comparison";
  }

  /** `title()` turns each lower-case type name into its capitalised label. */
  lemma DisplayTypeIsLabel(p: PageType)
    ensures DisplayType(p) == TypeLabel(p)
    ensures DisplayType(p) == [ToUpperChar(TypeName(p)[0])] + TypeName(p)[1..]
  {
    TypeNameIsLowerWord(p);
    TitleOfLowerWord(TypeName(p));
    LabelCapitalisesTypeName(p);
  }

  /** The header strings of a created page, with the type title-cased. */
  lemma CreatedPageHeaders(p: PageType, t: Topic, date: string, content: string)
    ensures CreateNewPage(p, t, date, content).description
         == "Latest " + TypeLabel(p) + " about " + TopicName(t) + " in tech"
    ensures CreateNewPage(p, t, date, content).heading == TopicName(t) + " " + TypeLabel(p)
    ensures CreateNewPage(p, t, date, content).title
         == CreateNewPage(p, t, date, content).heading + " - TechDaily"
    ensures CreateNewPage(p, t, date, content).category == TopicName(t)
    ensures CreateNewPage(p, t, date, content).body == content
  {
    DisplayTypeIsLabel(p);
  }

  /** The slugs of the five topics. */
  function TopicSlug(t: Topic): string
  {
    match t
    case AI => "ai"
    case Cybersecurity => "cybersecurity"
    case CloudComputing => "cloud-computing"
    case MobileTech => "mobile-tech"
    case Gaming => "gaming"
  }

  /** Each character of the slug, from the matching character of the topic. */
  lemma SlugAt(topic: string, i: nat)
    requires i < |topic|
    ensures Slug(topic)[i] == if topic[i] == ' ' then '-' else ToLowerChar(topic[i])
  {
  }

  /** Away from the spaces, the slug is the topic up to case. */
  lemma SlugKeepsLetters(topic: string, i: nat)
    requires i < |topic| && topic[i] != ' '
    ensures ToUpperChar(Slug(topic)[i]) == ToUpperChar(topic[i])
  {
    SlugAt(topic, i);
  }

  /** The slug of a topic, read off one character at a time. */
  lemma SlugIs(topic: string, slug: string)
    requires |slug| == |topic|
    requires forall i :: 0 <= i < |topic| ==> slug[i] == if topic[i] == ' ' then '-' else ToLowerChar(topic[i])
    ensures Slug(topic) == slug
  {
    forall i | 0 <= i < |topic|
      ensures Slug(topic)[i] == slug[i]
    {
      SlugAt(topic, i);
    }
  }

  lemma SlugOfTopic(t: Topic)
    ensures Slug(TopicName(t)) == TopicSlug(t)
  {
    SlugIs(TopicName(t), TopicSlug(t));
  }

  /** A stem `type-slug-date` whose type and date hold no hyphen splits into
      the type, the pieces of the slug and the date. */
  lemma SplitCreatedStem(pageType: string, slug: string, d: string)
    requires '-' !in pageType && '-' !in d
    ensures Split(pageType + "-" + slug + "-" + d, '-') == [pageType] + Split(slug, '-') + [d]
  {
    var a := pageType + "-" + slug;
    assert a + "-" + d == a + ['-'] + d;
    assert pageType + "-" + slug == pageType + ['-'] + slug;
    SplitAtSeparator(a, d, '-');
    SplitAtSeparator(pageType, slug, '-');
    SplitWithoutSeparator(pageType, '-');
    SplitWithoutSeparator(d, '-');
  }

  lemma TypeNameInjective(p1: PageType, p2: PageType)
    requires TypeName(p1) == TypeName(p2)
    ensures p1 == p2
  {
    assert TypeName(p1)[..2] == TypeName(p2)[..2];
  }

  /** The five topic names have five different lengths. */
  lemma TopicNameLengthInjective(t1: Topic, t2: Topic)
    requires |TopicName(t1)| == |TopicName(t2)|
    ensures t1 == t2
  {
  }

  /** A stem `type-slug-date` whose type and date hold no hyphen determines
      all three parts. */
  lemma StemPartsDetermined(a1: string, s1: string, d1: string, a2: string, s2: string, d2: string)
    requires '-' !in a1 && '-' !in d1 && '-' !in a2 && '-' !in d2
    requires a1 + "-" + s1 + "-" + d1 == a2 + "-" + s2 + "-" + d2
    ensures a1 == a2 && s1 == s2 && d1 == d2
  {
    var q := a1 + "-" + s1 + "-" + d1;
    SplitCreatedStem(a1, s1, d1);
    SplitCreatedStem(a2, s2, d2);
    var parts := Split(q, '-');
    assert a1 == parts[0] == a2;
    assert d1 == Last(parts) == d2;
    assert s1 == q[|a1| + 1..|q| - |d1| - 1];
    assert s2 == (a2 + "-" + s2 + "-" + d2)[|a2| + 1..|q| - |d2| - 1];
  }

  /** The stem of a created file name determines the type, the topic and the
      date. */
  lemma CreatedStemInjective(p1: PageType, t1: Topic, d1: string, p2: PageType, t2: Topic, d2: string)
    requires '-' !in d1 && '-' !in d2
    requires TypeName(p1) + "-" + Slug(TopicName(t1)) + "-" + d1
          == TypeName(p2) + "-" + Slug(TopicName(t2)) + "-" + d2
    ensures p1 == p2 && t1 == t2 && d1 == d2
  {
    TypeNameIsLowerWord(p1);
    TypeNameIsLowerWord(p2);
    StemPartsDetermined(TypeName(p1), Slug(TopicName(t1)), d1, TypeName(p2), Slug(TopicName(t2)), d2);
    TypeNameInjective(p1, p2);
    SlugShape(TopicName(t1));
    SlugShape(TopicName(t2));
    TopicNameLengthInjective(t1, t2);
  }

  /** Two runs write the same file exactly when they chose the same type and
      topic on the same day: on one day a repeated choice overwrites the
      earlier article, and no other pair of choices collides. */
  lemma FileNameInjective(p1: PageType, t1: Topic, d1: string, p2: PageType, t2: Topic, d2: string)
    requires '-' !in d1 && '-' !in d2
    ensures FileName(TypeName(p1), TopicName(t1), d1) == FileName(TypeName(p2), TopicName(t2), d2)
        <==> p1 == p2 && t1 == t2 && d1 == d2
  {
    var n1, n2 := FileName(TypeName(p1), TopicName(t1), d1), FileName(TypeName(p2), TopicName(t2), d2);
    if n1 == n2 {
      var q1 := TypeName(p1) + "-" + Slug(TopicName(t1)) + "-" + d1;
      var q2 := TypeName(p2) + "-" + Slug(TopicName(t2)) + "-" + d2;
      assert q1 == n1[..|n1| - 5] && q2 == n2[..|n2| - 5];
      CreatedStemInjective(p1, t1, d1, p2, t2, d2);
    }
  }
}
