/** The icon category of a project card (`getCategoryIcon` in
    src/components/ProjectsPage.tsx): the lower-cased project name is
    searched for keyword groups in a fixed order, by plain substring, and the
    first group with a hit decides. */
module ProjectCategory {
  import opened Text

  datatype Category = Mobile | Ai | Data | Web3 | Code

  const MobileWords: seq<string> := ["mobile", "app"]
  const AiWords: seq<string> := ["ai", "ml", "chat"]
  const DataWords: seq<string> := ["data", "dashboard", "analytics"]
  const Web3Words: seq<string> := ["blockchain", "crypto", "web3"]

  /** Some keyword of the group occurs in `s`. */
  predicate Mentions(s: string, words: seq<string>) {
    exists w :: w in words && Contains(s, w)
  }

  /** The keyword tests of one group, in the order the source writes them. */
  function AnyOf(s: string, words: seq<string>): (b: bool)
    ensures b <==> Mentions(s, words)
  {
    if |words| == 0 then false
    else Contains(s, words[0]) || AnyOf(s, words[1..])
  }

  /** The groups tried on an already lower-cased name. */
  function CategoryOfLower(name: string): Category {
    if AnyOf(name, MobileWords) then Mobile
    else if AnyOf(name, AiWords) then Ai
    else if AnyOf(name, DataWords) then Data
    else if AnyOf(name, Web3Words) then Web3
    else Code
  }

  /** `getCategoryIcon(projectName)` as the category its icon stands for. */
  function CategoryOf(projectName: string): (c: Category)
    ensures var name := Lower(projectName);
      && (c == Mobile <==> Mentions(name, MobileWords))
      && (c == Ai <==> !Mentions(name, MobileWords) && Mentions(name, AiWords))
      && (c == Data <==> !Mentions(name, MobileWords) && !Mentions(name, AiWords) && Mentions(name, DataWords))
      && (c == Web3 <==>
            !Mentions(name, MobileWords) && !Mentions(name, AiWords) && !Mentions(name, DataWords) && Mentions(name, Web3Words))
      && (c == Code <==>
            !Mentions(name, MobileWords) && !Mentions(name, AiWords) && !Mentions(name, DataWords) && !Mentions(name, Web3Words))
  {
    CategoryOfLower(Lower(projectName))
  }

  /** Names that agree up to ASCII case get the same category. */
  lemma CaseInsensitive(a: string, b: string)
    requires Lower(a) == Lower(b)
    ensures CategoryOf(a) == CategoryOf(b)
  {
  }

  /** In particular lower-casing a name first changes nothing. */
  lemma LowerFirstChangesNothing(name: string)
    ensures CategoryOf(Lower(name)) == CategoryOf(name)
  {
    LowerIdempotent(name);
  }

  /** `t` occurs in `s` at offset `i`, so `s` contains `t`. */
  lemma ContainsAt(s: string, t: string, i: nat)
    requires OccursAt(s, t, i)
    ensures Contains(s, t)
  {
  }

  /** An occurrence of `t` inside an occurrence of `u` is an occurrence in
      the enclosing string. */
  lemma OccursInside(s: string, u: string, t: string, i: nat, j: nat)
    requires OccursAt(s, u, i) && OccursAt(u, t, j)
    ensures OccursAt(s, t, i + j)
  {
    assert forall k :: 0 <= k < |t| ==> s[i + j + k] == u[j + k] == t[k];
    assert s[i + j..i + j + |t|] == t;
  }

  /** "blockchain" contains "ai", so a name mentioning blockchain is never in
      the blockchain group: it is a mobile or an AI project. */
  lemma BlockchainIsNeverWeb3(name: string)
    requires Contains(Lower(name), "blockchain")
    ensures CategoryOf(name) == Mobile || CategoryOf(name) == Ai
  {
    var s := Lower(name);
    var i: nat :| OccursAt(s, "blockchain", i);
    assert OccursAt("blockchain", "ai", 7);
    OccursInside(s, "blockchain", "ai", i, 7);
    ContainsAt(s, "ai", i + 7);
    assert "ai" in AiWords;
  }

  /** A name that mentions no mobile keyword and some AI keyword is an AI
      project. */
  lemma AiByKeyword(name: string, w: string)
    requires !Contains(Lower(name), "mobile") && !Contains(Lower(name), "app")
    requires w in AiWords && Contains(Lower(name), w)
    ensures CategoryOf(name) == Ai
  {
    assert MobileWords == ["mobile", "app"];
  }

  /** Matching is by substring, so short keywords hit inside longer words:
      "Email Tool" is an AI project through the "ai" of "email". */
  lemma EmailToolIsAi()
    ensures CategoryOf("Email Tool") == Ai
  {
    LowerEmailTool();
    EmailToolKeywords();
    AiByKeyword("Email Tool", "ai");
  }

  lemma EmailToolKeywords()
    ensures Contains("email tool", "ai")
    ensures !Contains("email tool", "mobile") && !Contains("email tool", "app")
  {
    var s := "email tool";
    assert OccursAt(s, "ai", 2);
    ContainsAt(s, "ai", 2);
    MissingChar(s, "mobile", 2);
    MissingChar(s, "app", 1);
  }

  lemma LowerEmailTool()
    ensures Lower("Email Tool") == "email tool"
  {
    var s := Lower("Email Tool");
    assert s[0] == 'e' && s[1] == 'm' && s[2] == 'a' && s[3] == 'i' && s[4] == 'l';
    assert s[6] == 't';
  }

  /** "HTML Parser" is an AI project through "ml". */
  lemma HtmlParserIsAi()
    ensures CategoryOf("HTML Parser") == Ai
  {
    LowerHtmlParser();
    HtmlParserKeywords();
    AiByKeyword("HTML Parser", "ml");
  }

  lemma HtmlParserKeywords()
    ensures Contains("html parser", "ml")
    ensures !Contains("html parser", "mobile") && !Contains("html parser", "app")
  {
    var s := "html parser";
    assert OccursAt(s, "ml", 2);
    ContainsAt(s, "ml", 2);
    MissingChar(s, "mobile", 1);
    HtmlParserHasNoApp();
  }

  /** The only "p" of "html parser" follows a space. */
  lemma HtmlParserHasNoApp()
    ensures !Contains("html parser", "app")
  {
    var s := "html parser";
    forall i | 0 <= i && i + 1 < |s| ensures s[i] != 'a' || s[i + 1] != 'p' {
      if i + 1 != 5 {
        assert s[i + 1] != 'p';
      }
    }
    NoOccurrence(s, "app");
  }

  lemma LowerHtmlParser()
    ensures Lower("HTML Parser") == "html parser"
  {
    var s := Lower("HTML Parser");
    assert s[0] == 'h' && s[1] == 't' && s[2] == 'm' && s[3] == 'l' && s[4] == ' ';
    assert s[5] == 'p';
  }

  /** "Happy Place" is a mobile project through the "app" of "happy". */
  lemma HappyPlaceIsMobile()
    ensures CategoryOf("Happy Place") == Mobile
  {
    var s := Lower("Happy Place");
    assert s == "happy place";
    assert OccursAt(s, "app", 1);
    ContainsAt(s, "app", 1);
    assert "app" in MobileWords;
  }

  /** A name with no keyword of any group is a code project. */
  lemma NoKeywordIsCode(name: string)
    requires forall w :: w in MobileWords + AiWords + DataWords + Web3Words ==> !Contains(Lower(name), w)
    ensures CategoryOf(name) == Code
  {
    assert forall w :: w in MobileWords ==> w in MobileWords + AiWords + DataWords + Web3Words;
    assert forall w :: w in AiWords ==> w in MobileWords + AiWords + DataWords + Web3Words;
    assert forall w :: w in DataWords ==> w in MobileWords + AiWords + DataWords + Web3Words;
    assert forall w :: w in Web3Words ==> w in MobileWords + AiWords + DataWords + Web3Words;
  }

  /** No offset of `s` starts with the first two characters of `t`, so `t`
      occurs nowhere in `s`. */
  lemma NoOccurrence(s: string, t: string)
    requires |t| >= 2
    requires forall i :: 0 <= i && i + 1 < |s| ==> s[i] != t[0] || s[i + 1] != t[1]
    ensures !Contains(s, t)
  {
    forall i: nat ensures !OccursAt(s, t, i) {
      if i + |t| <= |s| {
        assert s[i..i + |t|][0] == s[i] && s[i..i + |t|][1] == s[i + 1];
      }
    }
  }

  /** A character of `t` that `s` lacks rules out every occurrence of `t`. */
  lemma MissingChar(s: string, t: string, k: nat)
    requires k < |t|
    requires forall i :: 0 <= i < |s| ==> s[i] != t[k]
    ensures !Contains(s, t)
  {
    forall i: nat ensures !OccursAt(s, t, i) {
      if i + |t| <= |s| {
        assert s[i..i + |t|][k] == s[i + k];
      }
    }
  }
}
