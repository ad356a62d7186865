/** Worked examples of the slug generator on "Hello World" and "Hello   World!!". */
module SlugExamples {
  import opened Ascii
  import opened Slug

  /** The reference definition, one leading character at a time. */
  lemma LoweredAlnumCons(c: char, t: string)
    ensures LoweredAlnum([c] + t) == (if IsAlnum(c) then [ToLower(c)] else []) + LoweredAlnum(t)
  {
    assert ([c] + t)[0] == c;
    assert ([c] + t)[1..] == t;
  }

  lemma HelloWord()
    ensures LoweredAlnum("Hello") == "hello"
  {
    assert "Hello" == ['H'] + "ello";
    LoweredAlnumCons('H', "ello");
    LoweredAlnumOfSlug("ello");
  }

  lemma WorldWord()
    ensures LoweredAlnum("World") == "world"
  {
    assert "World" == ['W'] + "orld";
    LoweredAlnumCons('W', "orld");
    LoweredAlnumOfSlug("orld");
  }

  lemma Separators()
    ensures LoweredAlnum(" ") == []
    ensures LoweredAlnum("   ") == []
    ensures LoweredAlnum("!!") == []
  {
    LoweredAlnumCons(' ', "");
    assert " " == [' '] + "";
    LoweredAlnumCons(' ', " ");
    assert "  " == [' '] + " ";
    LoweredAlnumCons(' ', "  ");
    assert "   " == [' '] + "  ";
    LoweredAlnumCons('!', "");
    assert "!" == ['!'] + "";
    LoweredAlnumCons('!', "!");
    assert "!!" == ['!'] + "!";
  }

  /** The titles and the slug, spelled as their parts. */
  lemma Spellings()
    ensures "Hello" + " " + "World" == "Hello World"
    ensures "Hello" + "   " + "World!!" == "Hello   World!!"
    ensures "World" + "!!" == "World!!"
    ensures "hello" + "world" == "helloworld"
  {
  }

  /** A title made of a word, a run of separators and a word has the two words' slug, joined. */
  lemma {:induction false} SeparatedWords(first: string, gap: string, second: string, x: string, z: string)
    requires LoweredAlnum(first) == x && LoweredAlnum(gap) == [] && LoweredAlnum(second) == z
    ensures GenerateSlug(first + gap + second) == x + z
  {
    LoweredAlnumAppend(first, gap);
    assert first + gap + second == (first + gap) + second;
    LoweredAlnumAppend(first + gap, second);
    assert LoweredAlnum(first + gap) == x;
  }

  /** "Hello World" becomes "helloworld", not "hello-world": no hyphen is ever produced. */
  lemma HelloWorldExample()
    ensures GenerateSlug("Hello World") == "helloworld"
  {
    HelloWord();
    WorldWord();
    Separators();
    SeparatedWords("Hello", " ", "World", "hello", "world");
    Spellings();
  }

  /** "Hello   World!!" collides with "Hello World". */
  lemma HelloWorldShoutedExample()
    ensures GenerateSlug("Hello   World!!") == "helloworld"
  {
    HelloWord();
    WorldWord();
    Separators();
    Spellings();
    LoweredAlnumAppend("World", "!!");
    SeparatedWords("Hello", "   ", "World!!", "hello", "world");
  }
}
