/**
 * The static data of the engine: the letter tables in both directions and the
 * exception fragments with their maximum length.
 *
 * The two tables are compile-time perfect-hash maps in the source, used only
 * through `get`; here each is its lookup function, written as one `match` case
 * per entry.
 */
module Tables {
  import opened Wrappers
  import opened CaseFold

  /** `cyr_to_lat_char`, that is `CYR_TO_LAT.get`: the Latin form of a lower-case Cyrillic letter. */
  function CyrToLatChar(c: char): Option<string>
  {
    match c
    case 'а' => Some("a")
    case 'б' => Some("b")
    case 'в' => Some("v")
    case 'г' => Some("g")
    case 'д' => Some("d")
    case 'ђ' => Some("đ")
    case 'е' => Some("e")
    case 'ж' => Some("ž")
    case 'з' => Some("z")
    case 'и' => Some("i")
    case 'ј' => Some("j")
    case 'к' => Some("k")
    case 'л' => Some("l")
    case 'љ' => Some("lj")
    case 'м' => Some("m")
    case 'н' => Some("n")
    case 'њ' => Some("nj")
    case 'о' => Some("o")
    case 'п' => Some("p")
    case 'р' => Some("r")
    case 'с' => Some("s")
    case 'т' => Some("t")
    case 'ћ' => Some("ć")
    case 'у' => Some("u")
    case 'ф' => Some("f")
    case 'х' => Some("h")
    case 'ц' => Some("c")
    case 'ч' => Some("č")
    case 'џ' => Some("dž")
    case 'ш' => Some("š")
    case _ => None
  }

  /** `LAT_TO_CYR.get`: the lower-case Cyrillic letter of a lower-case Latin letter or digraph. */
  function LatToCyrChar(key: string): Option<char>
  {
    if |key| == 1 then
      match key[0]
      case 'a' => Some('а')
      case 'b' => Some('б')
      case 'v' => Some('в')
      case 'g' => Some('г')
      case 'd' => Some('д')
      case 'đ' => Some('ђ')
      case 'e' => Some('е')
      case 'ž' => Some('ж')
      case 'z' => Some('з')
      case 'i' => Some('и')
      case 'j' => Some('ј')
      case 'k' => Some('к')
      case 'l' => Some('л')
      case 'm' => Some('м')
      case 'n' => Some('н')
      case 'o' => Some('о')
      case 'p' => Some('п')
      case 'r' => Some('р')
      case 's' => Some('с')
      case 't' => Some('т')
      case 'ć' => Some('ћ')
      case 'u' => Some('у')
      case 'f' => Some('ф')
      case 'h' => Some('х')
      case 'c' => Some('ц')
      case 'č' => Some('ч')
      case 'š' => Some('ш')
      case _ => None
    else if |key| == 2 then
      match (key[0], key[1])
      case ('d', 'ž') => Some('џ')
      case ('l', 'j') => Some('љ')
      case ('n', 'j') => Some('њ')
      case _ => None
    else
      None
  }

  /** The Latin digraphs, the only two-character keys of `LatToCyr`. */
  const Digraphs: set<string> := {"lj", "nj", "dž"}

  /** Fragments in which a digraph-looking pair stands for two separate letters. */
  const Exceptions: set<string> := {
    "tanjug", "adžive", "nadže", "odžive", "odžvaka", "odžuri",
    "džubori", "onjugacij", "njukcij", "njekcij", "anjezičn"
  }

  /** The length of the longest exception. */
  const MaxExceptionLen: nat := 9

  /**
   * Every exception has between five and `MaxExceptionLen` characters, and
   * one of them has exactly `MaxExceptionLen`.
   */
  lemma ExceptionLengths()
    ensures forall w :: w in Exceptions ==> 5 <= |w| <= MaxExceptionLen
    ensures "onjugacij" in Exceptions && |"onjugacij"| == MaxExceptionLen
  {
  }

  /** Every Cyrillic letter's Latin form maps back to that letter. */
  lemma CyrToLatInverse()
    ensures forall c :: CyrToLatChar(c).Some? ==> LatToCyrChar(CyrToLatChar(c).value) == Some(c)
  {
    forall c | CyrToLatChar(c).Some? ensures LatToCyrChar(CyrToLatChar(c).value) == Some(c) {
      match c
      case 'а' =>
      case 'б' =>
      case 'в' =>
      case 'г' =>
      case 'д' =>
      case 'ђ' =>
      case 'е' =>
      case 'ж' =>
      case 'з' =>
      case 'и' =>
      case 'ј' =>
      case 'к' =>
      case 'л' =>
      case 'љ' =>
      case 'м' =>
      case 'н' =>
      case 'њ' =>
      case 'о' =>
      case 'п' =>
      case 'р' =>
      case 'с' =>
      case 'т' =>
      case 'ћ' =>
      case 'у' =>
      case 'ф' =>
      case 'х' =>
      case 'ц' =>
      case 'ч' =>
      case 'џ' =>
      case 'ш' =>
      case _ =>
    }
  }

  /** Every Latin letter or digraph is the Latin form of the Cyrillic letter it maps to. */
  lemma LatToCyrInverse()
    ensures forall k :: LatToCyrChar(k).Some? ==> CyrToLatChar(LatToCyrChar(k).value) == Some(k)
  {
    forall k | LatToCyrChar(k).Some? ensures CyrToLatChar(LatToCyrChar(k).value) == Some(k) {
      if |k| == 1 {
        assert k == [k[0]];
      } else {
        assert k == [k[0], k[1]];
      }
    }
  }

  /**
   * The Latin forms are one or two lower-case characters, two exactly for
   * љ, њ and џ, and every Cyrillic key is lower-case.
   */
  lemma LatinFormShape()
    ensures forall c :: CyrToLatChar(c).Some? ==>
      && IsLower(c)
      && 1 <= |CyrToLatChar(c).value| <= 2
      && (|CyrToLatChar(c).value| == 2 <==> c in "љњџ")
      && forall j :: 0 <= j < |CyrToLatChar(c).value| ==> IsLower(CyrToLatChar(c).value[j])
  {
    forall c | CyrToLatChar(c).Some?
      ensures IsLower(c) && 1 <= |CyrToLatChar(c).value| <= 2 && (|CyrToLatChar(c).value| == 2 <==> c in "љњџ")
      ensures forall j :: 0 <= j < |CyrToLatChar(c).value| ==> IsLower(CyrToLatChar(c).value[j])
    {
      match c
      case 'а' =>
      case 'б' =>
      case 'в' =>
      case 'г' =>
      case 'д' =>
      case 'ђ' =>
      case 'е' =>
      case 'ж' =>
      case 'з' =>
      case 'и' =>
      case 'ј' =>
      case 'к' =>
      case 'л' =>
      case 'љ' =>
      case 'м' =>
      case 'н' =>
      case 'њ' =>
      case 'о' =>
      case 'п' =>
      case 'р' =>
      case 'с' =>
      case 'т' =>
      case 'ћ' =>
      case 'у' =>
      case 'ф' =>
      case 'х' =>
      case 'ц' =>
      case 'ч' =>
      case 'џ' =>
      case 'ш' =>
      case _ =>
    }
  }

  /**
   * Every Latin key is one or two lower-case characters, the two-character keys
   * are exactly the digraphs, and every Cyrillic value is lower-case.
   */
  lemma LatinKeyShape()
    ensures forall k :: LatToCyrChar(k).Some? ==> 1 <= |k| <= 2 && (|k| == 2 <==> k in Digraphs)
    ensures forall k :: k in Digraphs ==> LatToCyrChar(k).Some?
    ensures forall k :: LatToCyrChar(k).Some? ==> IsLower(LatToCyrChar(k).value)
    ensures forall k, j :: LatToCyrChar(k).Some? && 0 <= j < |k| ==> IsLower(k[j])
  {
    forall k | LatToCyrChar(k).Some?
      ensures 1 <= |k| <= 2 && (|k| == 2 <==> k in Digraphs) && IsLower(LatToCyrChar(k).value)
      ensures forall j :: 0 <= j < |k| ==> IsLower(k[j])
    {
      if |k| == 1 {
        assert k == [k[0]];
      } else {
        assert k == [k[0], k[1]];
      }
    }
    assert LatToCyrChar("lj").Some? && LatToCyrChar("nj").Some? && LatToCyrChar("dž").Some?;
  }
}
