/**
 * `IntentService.detect`: a message asks for architecture generation when
 * its lower-cased text contains one of nine keywords as a substring;
 * otherwise it is chat.
 */
module Intents {
  import opened Strings

  /** `Intent`, a `str` enum. */
  datatype Intent = Chat | GenerateArchitecture {
    /** The enum member's string value. */
    function Value(): string {
      match this
      case Chat => "chat"
      case GenerateArchitecture => "generate_architecture"
    }
  }

  const Keywords: seq<string> :=
    ["build", "generate", "design", "architecture", "system", "backend", "frontend", "app", "website"]

  /** `any(k in msg for k in keywords)`. */
  function AnyKeyword(msg: string, keywords: seq<string>): (b: bool)
    ensures b <==> exists k :: k in keywords && Occurs(msg, k)
    decreases |keywords|
  {
    if keywords == [] then false
    else
      ContainsIff(msg, keywords[0]);
      Contains(msg, keywords[0]) || AnyKeyword(msg, keywords[1..])
  }

  /** `IntentService.detect(message)`. */
  function Detect(message: string): (r: Intent)
    ensures r == GenerateArchitecture <==> exists k :: k in Keywords && Occurs(LowerAscii(message), k)
    ensures r == Chat <==> forall k :: k in Keywords ==> !Occurs(LowerAscii(message), k)
  {
    if AnyKeyword(LowerAscii(message), Keywords) then GenerateArchitecture else Chat
  }

  /** Letter case does not matter: an upper-cased message gets the same intent. */
  lemma DetectIgnoresCase(message: string)
    ensures Detect(UpperAscii(message)) == Detect(message)
  {
    LowerUpper(message);
  }

  /** No keyword is empty, so the empty message is chat. */
  lemma DetectEmpty()
    ensures Detect("") == Chat
  {
    forall k | k in Keywords ensures !Occurs(LowerAscii(""), k) {
      assert |k| > 0;
      ContainsTooShort(LowerAscii(""), k);
      ContainsIff(LowerAscii(""), k);
    }
  }

  /** Text around a message that asks for generation cannot turn it into chat. */
  lemma DetectMonotone(a: string, m: string, b: string)
    requires Detect(m) == GenerateArchitecture
    ensures Detect(a + m + b) == GenerateArchitecture
  {
    var k :| k in Keywords && Occurs(LowerAscii(m), k);
    ContainsIff(LowerAscii(m), k);
    ContainsInfix(LowerAscii(a), LowerAscii(m), LowerAscii(b), k);
    LowerAsciiAppend(a + m, b);
    LowerAsciiAppend(a, m);
    ContainsIff(LowerAscii(a + m + b), k);
  }

  /** Matching is by substring, not by word: "happy" holds "app". */
  lemma DetectSubstringNotWord()
    ensures Detect("happy") == GenerateArchitecture
  {
    assert LowerAscii("happy") == "happy";
    assert OccursAt("happy", "app", 1);
    assert "app" in Keywords;
  }
}
