/**
 * The client's enum of rewriting styles: each constant has a name, a
 * display name given to its constructor, and the value sent to the
 * server, which is the constant's name in lower case.
 */
module RewriteStyles {
  import opened Text
  import Server

  datatype RewriteStyle = Professional | Casual | Academic | Simplified

  /** Every constant, in declaration order. */
  const AllStyles: seq<RewriteStyle> := [Professional, Casual, Academic, Simplified]

  /** Enum.name(): the constant as declared. */
  function Name(s: RewriteStyle): string
  {
    match s
    case Professional => "PROFESSIONAL"
    case Casual => "CASUAL"
    case Academic => "ACADEMIC"
    case Simplified => "SIMPLIFIED"
  }

  /** getDisplayName(): the argument the constant was built with. */
  function DisplayName(s: RewriteStyle): (r: string)
    ensures r != [] && IsAsciiUpper(r[0])
    ensures forall k :: 1 <= k < |r| ==> IsAsciiLower(r[k])
  {
    match s
    case Professional => "Professional"
    case Casual => "Casual"
    case Academic => "Academic"
    case Simplified => "Simplified"
  }

  /** Each constant is declared as its display name in capitals. */
  lemma NameIsUpperDisplayName(s: RewriteStyle)
    ensures Name(s) == Upper(DisplayName(s))
  {
    assert Upper("Professional") == "PROFESSIONAL";
    assert Upper("Casual") == "CASUAL";
    assert Upper("Academic") == "ACADEMIC";
    assert Upper("Simplified") == "SIMPLIFIED";
  }

  /** getApiValue(): the name in lower case. */
  function ApiValue(s: RewriteStyle): (r: string)
    ensures |r| == |Name(s)|
  {
    Lower(Name(s))
  }

  /** The value sent for each constant, spelt out. */
  lemma ApiValues()
    ensures ApiValue(Professional) == "professional"
    ensures ApiValue(Casual) == "casual"
    ensures ApiValue(Academic) == "academic"
    ensures ApiValue(Simplified) == "simplified"
  {
  }

  /** The value sent is the display name in lower case, for every constant. */
  lemma ApiValueIsLowerDisplayName(s: RewriteStyle)
    ensures ApiValue(s) == Lower(DisplayName(s))
  {
    ApiValues();
    assert Lower("Professional") == "professional";
    assert Lower("Casual") == "casual";
    assert Lower("Academic") == "academic";
    assert Lower("Simplified") == "simplified";
  }

  /** No two constants send the same value. */
  lemma ApiValueInjective(a: RewriteStyle, b: RewriteStyle)
    requires ApiValue(a) == ApiValue(b)
    ensures a == b
  {
    ApiValues();
  }

  /**
   * The values the enum sends are exactly the style keys the server accepts,
   * in the same order: every constant is accepted and every key is some
   * constant's value.
   */
  lemma ApiValuesAreServerKeys()
    ensures |AllStyles| == |Server.StyleKeys|
    ensures forall i :: 0 <= i < |AllStyles| ==> ApiValue(AllStyles[i]) == Server.StyleKeys[i]
    ensures forall s: RewriteStyle :: ApiValue(s) in Server.StyleKeys
    ensures forall k :: k in Server.StyleKeys ==> exists s: RewriteStyle :: ApiValue(s) == k
  {
    ApiValues();
    assert forall k :: k in Server.StyleKeys ==>
      (k == ApiValue(Professional) || k == ApiValue(Casual) || k == ApiValue(Academic) || k == ApiValue(Simplified));
  }
}
