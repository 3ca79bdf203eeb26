/**
 * The solved-grid templates of `pattern.rs`: one grid of letters per supported block size,
 * relabelled by writing the `k`-th symbol of an alphabet, in decimal, for the `k`-th letter.
 */
module Pattern {
  import opened Wrappers
  import Lists

  /** `PATTERN_CHARS`: the letters a template may use, `a` to `y`. */
  const PatternChars: string := "abcdefghijklmnopqrstuvwxy"

  // Solved grids for each supported (height, width), one string of letters per row.
  const Rows1x3: seq<string> := ["abc", "bca", "cab"]
  const Rows2x2: seq<string> := ["abcd", "cdab", "badc", "dcba"]
  const Rows2x3: seq<string> := ["abcdef", "defabc", "bcaefd", "efdbca", "cabfde", "fdecab"]
  const Rows3x2: seq<string> := ["abcdef", "cdefab", "efabcd", "badcfe", "dcfeba", "febadc"]
  const Rows4x2: seq<string> := ["abcdefgh", "cdghabef", "efabghcd", "ghefcdab", "badcfehg", "dchgbafe", "febahgdc", "hgfedcba"]
  const Rows2x4: seq<string> := ["abcdefgh", "efghabcd", "bdacfghe", "fhegbdac", "cafbhedg", "dghecabf", "gcbfdhea", "hedagcfb"]
  const Rows3x3: seq<string> := ["abcdefghi", "defghiabc", "ghiabcdef", "bcafgdhie", "hgeiabcfd", "fidechbag", "cagbfeidh", "edbhigfca", "ifhcdaegb"]
  const Rows2x5: seq<string> := ["abcdefghij", "fghijabcde", "beacdihjgf", "gjfhibeacd", "cadebhifjg", "hfijgcadeb", "dcgbajfehi", "eijfhdcgba", "ideacgjbfh", "jhbgfediac"]
  const Rows5x2: seq<string> := ["abcdefghij", "cdijabefgh", "efabghijcd", "ghefijcdab", "ijghcdabef", "badcfehgji", "dcjibafehg", "febahgjidc", "hgfejidcba", "jihgdcbafe"]
  const Rows4x3: seq<string> := ["abcdefghijkl", "defjklabcghi", "ghiabcjkldef", "jklghidefabc", "bcahfdkieljg", "ijgkcablhfde", "flheigcdjkab", "edkljbfagich", "cfdbghijaelk", "habfljegkcid", "kgjidelcbhfa", "liecakhfdbgj"]
  const Rows3x4: seq<string> := ["abcdefghijkl", "efghijklabcd", "ijklabcdefgh", "bgacjideklhf", "jkleghbfcadi", "dhifklacgebj", "cafjbdikhgle", "ledghcjafkib", "hibkfelgdcja", "fchblgeijdak", "gleadkhjbifc", "kdjicafblheg"]
  const Rows4x4: seq<string> := ["abcdefghijklmnop", "efghmnopabcdijkl", "ijklabcdmnopefgh", "mnopijklefghabcd", "bdachijenklfpomg", "oklnpdafbmeghcij", "gmpinkbohcjafdle", "hejfcglmopdikabn", "cahbfeigkdpmjlno", "lgdmkonacihjbpef", "npijdlmbfeaocghk", "foekjhpcglbndiam", "dhfalcekjgnbompi", "jcmogphilafenkdb", "klnebmdjpoicghfa", "pibgoafndhmklejc"]
  const Rows4x5: seq<string> := ["abcdefghijklmnopqrst", "fghijpqrstabcdeklmno", "klmnoabcdepqrstfghij", "pqrstklmnofghijabcde", "biacdlmpefrnqjgtoskh", "qrspfthkbglodmciaejn", "ntjmgosiarepkfhdcblq", "eklohjdqcnbstaigmfpr", "cakjbinemdthlqrspogf", "smpfrbojthgdicklnqea", "odtgickflqnapeshrjmb", "henlqgparsmjobfcditk", "dobhmnfgpcseatlqjkri", "lpeqsmtojickfrdbhnag", "rjftksalhbqigonmepcd", "icganerdqkjmbhpostfl", "ghobcdenfpitjlmrkaqs", "jnikarcbglhfspqetdom", "msdepqitkaorngbjflhc", "tfqrlhjsomdcekanigbp"]
  const Rows5x4: seq<string> := ["abcdefghijklmnopqrst", "efghqrstabcdijklmnop", "ijklabcdmnopqrstefgh", "mnopijklqrstefghabcd", "qrstmnopefghabcdijkl", "bdackhjeoplfrqmgstni", "roqnstdgbcempifajlhk", "pkhefilnsqjrotbcdgam", "jmlibaqrtdhgnkesfcpo", "stfgcpmokaindhljbeqr", "camopkhbdiqegltnrsjf", "gpjboqeilsnafmhrtkdc", "hqnflmacgtrbjsdkopie", "deirjgtsfkmcbapohqln", "kltsndrfhopjceiqgmba", "fcdmgobqnlaisprekhtj", "lipkdcfmjetqhgabnors", "nseahlikrgbotcjfpdmq", "ogrjtsnaphfkldqmcieb", "thbqrepjcmdskonilafg"]
  const Rows5x5: seq<string> := ["abcdefghijklmnopqrstuvwxy", "fghijuvwxyabcdeklmnopqrst", "klmnoabcdepqrstuvwxyfghij", "pqrstklmnouvwxyfghijabcde", "uvwxypqrstfghijabcdeklmno", "beacdjklmfrunogvwsphyxtqi", "qtuvwxneagycfhilmkobjpdrs", "jpsfiowuydvmltxnrqacgebhk", "xynlrbhqpvdskjwgitefcmaou", "hogkmsticrbaeqpxjuydlnfvw", "caopbnisqhmtvudjegrwxkylf", "vwxtsdeflaorpkcynbhmijugq", "ydqhlmpgrbnijefoxvkutwsac", "mneukvxjtcgwyasqdiflbhopr", "gjirfwyoukxhqblstacpmdnev", "dkbenimafuljgwqcsotxvrpyh", "imjgvrcnbweotpadhyuqsflkx", "ospyxhdtvqckufbrajlnwiemg", "rcfwaljpgshyxmnbkeviotqud", "lhtqueoykxidsrvmfpwgnajcb", "efvjcqrbhmtnaykiolgsduxwp", "nrdahtsvoiqxbcuwpfmkeygjl", "sikmpyadwljfogheuxbrqcvtn", "tuyoqgfxenwpilmhcdjvrskba", "wxlbgcukjpsedvrtynqahoifm"]

  /** The block sizes `(height, width)` that have a template. */
  const TemplateSizes: set<(nat, nat)> := {(1, 3), (2, 2), (2, 3), (3, 2), (4, 2), (2, 4), (3, 3), (2, 5),
                                          (5, 2), (4, 3), (3, 4), (4, 4), (4, 5), (5, 4), (5, 5)}

  /**
   * The `match` on `(height, width)`: the rows of a template for the fifteen listed block
   * sizes and None for every other. A template spells out a `side x side` grid, one letter
   * per cell.
   */
  function TemplateRows(height: nat, width: nat): (r: Option<seq<string>>)
    ensures r.Some? <==> (height, width) in TemplateSizes
    ensures r.Some? ==> 3 <= height * width <= 25 && |r.value| == height * width
  {
    match (height, width)
    case (1, 3) => Some(Rows1x3)
    case (2, 2) => Some(Rows2x2)
    case (2, 3) => Some(Rows2x3)
    case (3, 2) => Some(Rows3x2)
    case (4, 2) => Some(Rows4x2)
    case (2, 4) => Some(Rows2x4)
    case (3, 3) => Some(Rows3x3)
    case (2, 5) => Some(Rows2x5)
    case (5, 2) => Some(Rows5x2)
    case (4, 3) => Some(Rows4x3)
    case (3, 4) => Some(Rows3x4)
    case (4, 4) => Some(Rows4x4)
    case (4, 5) => Some(Rows4x5)
    case (5, 4) => Some(Rows5x4)
    case (5, 5) => Some(Rows5x5)
    case _ => None
  }

  /** The letters of one row with a comma between neighbours. */
  function Spaced(row: string): (r: string)
    ensures |r| == if row == [] then 0 else 2 * |row| - 1
  {
    if |row| <= 1 then row else [row[0], ','] + Spaced(row[1..])
  }

  /** The text form of a grid: its rows, each `Spaced`, separated by `|`. */
  function PatternText(rows: seq<string>): string
    decreases |rows|
  {
    if rows == [] then []
    else if |rows| == 1 then Spaced(rows[0])
    else Spaced(rows[0]) + "|" + PatternText(rows[1..])
  }

  /** The template string for a block size, as it appears in the `P_h_w` statics. */
  function Template(height: nat, width: nat): (r: Option<string>)
    ensures r.Some? <==> TemplateRows(height, width).Some?
    ensures r.Some? ==> r.value == PatternText(TemplateRows(height, width).value)
  {
    match TemplateRows(height, width)
    case None => None
    case Some(rows) => Some(PatternText(rows))
  }

  /** The `i`-th letter of `PATTERN_CHARS` is the `i`-th letter of the alphabet. */
  lemma LetterAt(i: nat)
    requires i < |PatternChars|
    ensures |PatternChars| == 25 && PatternChars[i] as int == 'a' as int + i
  {
  }

  predicate IsDigit(c: char) {
    '0' <= c <= '9'
  }

  /** `to_string` of a number: its decimal digits, most significant first. */
  function Decimal(n: nat): (r: string)
    ensures |r| >= 1 && forall c :: c in r ==> IsDigit(c)
  {
    if n < 10 then [('0' as int + n) as char]
    else Decimal(n / 10) + [('0' as int + n % 10) as char]
  }

  /** The number a string of decimal digits spells. */
  function DecimalValue(s: string): nat
    requires forall c :: c in s ==> IsDigit(c)
  {
    if s == [] then 0
    else
      assert s[|s| - 1] in s;
      DecimalValue(s[..|s| - 1]) * 10 + DigitValue(s[|s| - 1])
  }

  function DigitValue(c: char): nat
    requires IsDigit(c)
  {
    c as int - '0' as int
  }

  /** Reading the digits back gives the number: `Decimal` loses nothing. */
  lemma {:induction false} DecimalRoundTrip(n: nat)
    ensures DecimalValue(Decimal(n)) == n
  {
    if n >= 10 {
      DecimalRoundTrip(n / 10);
      var d := Decimal(n);
      assert d[..|d| - 1] == Decimal(n / 10);
    }
  }

  /** Different numbers are written differently. */
  lemma DecimalInjective(n: nat, m: nat)
    requires Decimal(n) == Decimal(m)
    ensures n == m
  {
    DecimalRoundTrip(n);
    DecimalRoundTrip(m);
  }

  /** `str::replace` with a one-character pattern: every occurrence of `c` becomes `r`. */
  function Replace(s: string, c: char, r: string): string
  {
    if s == [] then [] else (if s[0] == c then r else [s[0]]) + Replace(s[1..], c, r)
  }

  /** A text without the character is left as it is. */
  lemma {:induction false} ReplaceAbsent(s: string, c: char, r: string)
    requires c !in s
    ensures Replace(s, c, r) == s
  {
    if s != [] {
      ReplaceAbsent(s[1..], c, r);
      assert s == [s[0]] + s[1..];
    }
  }

  /** Every occurrence goes: the replacement text is all that can bring `c` back. */
  lemma {:induction false} ReplaceRemoves(s: string, c: char, r: string)
    requires c !in r
    ensures c !in Replace(s, c, r)
  {
    if s != [] {
      ReplaceRemoves(s[1..], c, r);
    }
  }

  /** Replacing in two pieces is replacing in each. */
  lemma {:induction false} ReplaceAppend(s: string, t: string, c: char, r: string)
    ensures Replace(s + t, c, r) == Replace(s, c, r) + Replace(t, c, r)
  {
    if s == [] {
      assert s + t == t;
    } else {
      ReplaceAppend(s[1..], t, c, r);
      var head := if s[0] == c then r else [s[0]];
      Lists.ConsAppend(s, t);
      Lists.AppendAssoc(head, Replace(s[1..], c, r), Replace(t, c, r));
    }
  }

  /**
   * What character `ch` of a template has become once the first `k` letters are relabelled:
   * the decimal form of its symbol if it is one of those letters, itself otherwise.
   */
  function Relabel(ch: char, alphabet: seq<nat>, k: nat): string
    requires k <= |alphabet| && k <= 25
  {
    if 'a' <= ch && ch as int - 'a' as int < k then Decimal(alphabet[ch as int - 'a' as int]) else [ch]
  }

  /** The template with its first `k` letters relabelled, character by character. */
  function RelabelAll(t: string, alphabet: seq<nat>, k: nat): string
    requires k <= |alphabet| && k <= 25
  {
    if t == [] then [] else Relabel(t[0], alphabet, k) + RelabelAll(t[1..], alphabet, k)
  }

  /** Nothing relabelled yet: the template itself. */
  lemma {:induction false} RelabelNone(t: string, alphabet: seq<nat>)
    ensures RelabelAll(t, alphabet, 0) == t
  {
    if t != [] {
      RelabelNone(t[1..], alphabet);
      assert t == [t[0]] + t[1..];
    }
  }

  /**
   * One round of the loop: replacing letter `k` by its symbol in a text whose first `k`
   * letters are relabelled relabels letter `k` as well. Earlier replacements wrote only
   * digits, so this one rewrites nothing they produced.
   */
  lemma {:induction false} RelabelStep(t: string, alphabet: seq<nat>, k: nat)
    requires k < |alphabet| && k < 25
    ensures Replace(RelabelAll(t, alphabet, k), PatternChars[k], Decimal(alphabet[k])) == RelabelAll(t, alphabet, k + 1)
  {
    if t != [] {
      var c, d := PatternChars[k], Decimal(alphabet[k]);
      LetterAt(k);
      RelabelStep(t[1..], alphabet, k);
      ReplaceAppend(Relabel(t[0], alphabet, k), RelabelAll(t[1..], alphabet, k), c, d);
      RelabelCharStep(t[0], alphabet, k);
    }
  }

  /** `RelabelStep` for one character of the template. */
  lemma RelabelCharStep(ch: char, alphabet: seq<nat>, k: nat)
    requires k < |alphabet| && k < 25
    ensures Replace(Relabel(ch, alphabet, k), PatternChars[k], Decimal(alphabet[k])) == Relabel(ch, alphabet, k + 1)
  {
    var c, d := PatternChars[k], Decimal(alphabet[k]);
    LetterAt(k);
    if 'a' <= ch && ch as int - 'a' as int < k {
      assert !IsDigit(c);
      ReplaceAbsent(Relabel(ch, alphabet, k), c, d);
    } else {
      ReplaceOne(ch, c, d);
    }
  }

  /** Replacing in a single character. */
  lemma ReplaceOne(ch: char, c: char, r: string)
    ensures Replace([ch], c, r) == if ch == c then r else [ch]
  {
    assert Replace([ch], c, r) == (if ch == c then r else [ch]) + Replace([], c, r);
  }

  /** How many letters the `zip` of the alphabet with `PATTERN_CHARS` pairs up. */
  function Zipped(alphabet: seq<nat>): (k: nat)
    ensures k <= |alphabet| && k <= 25
    ensures k == |alphabet| || k == 25
  {
    if |alphabet| < 25 then |alphabet| else 25
  }

  /**
   * The loop over the zipped pairs: each round replaces every occurrence of one letter by
   * the decimal form of its symbol, which relabels every paired letter of the template.
   */
  method RelabelLetters(template: string, alphabet: seq<nat>) returns (pattern: string)
    ensures pattern == RelabelAll(template, alphabet, Zipped(alphabet))
  {
    var n := Zipped(alphabet);
    pattern := template;
    RelabelNone(template, alphabet);
    for k := 0 to n
      invariant pattern == RelabelAll(template, alphabet, k)
    {
      RelabelStep(template, alphabet, k);
      pattern := Replace(pattern, PatternChars[k], Decimal(alphabet[k]));
    }
  }

  /**
   * `AnswerPattern::create_solved_string_from_pattern`: None for a block size without a
   * template; otherwise the template with each paired letter relabelled.
   */
  method CreateSolvedStringFromPattern(height: nat, width: nat, alphabet: seq<nat>) returns (r: Option<string>)
    ensures r.None? <==> TemplateRows(height, width).None?
    ensures r.Some? ==> r.value == RelabelAll(Template(height, width).value, alphabet, Zipped(alphabet))
  {
    var template := Template(height, width);
    if template.None? {
      return None;
    }
    var pattern := RelabelLetters(template.value, alphabet);
    return Some(pattern);
  }

  /**
   * With an alphabet that repeats no symbol, two relabelled letters read the same exactly
   * when they are the same letter, so a template that is a solved grid stays one.
   */
  lemma RelabelDistinct(a: char, b: char, alphabet: seq<nat>, k: nat)
    requires k <= |alphabet| && k <= 25
    requires forall i, j :: 0 <= i < j < |alphabet| ==> alphabet[i] != alphabet[j]
    requires 'a' <= a && a as int - 'a' as int < k && 'a' <= b && b as int - 'a' as int < k
    ensures Relabel(a, alphabet, k) == Relabel(b, alphabet, k) <==> a == b
  {
    if Relabel(a, alphabet, k) == Relabel(b, alphabet, k) {
      DecimalInjective(alphabet[a as int - 'a' as int], alphabet[b as int - 'a' as int]);
    }
  }

  /** The relabelled text has a character only from the template or from a symbol's digits. */
  lemma {:induction false} RelabelChars(t: string, alphabet: seq<nat>, k: nat, c: char)
    requires k <= |alphabet| && k <= 25 && c in RelabelAll(t, alphabet, k)
    ensures IsDigit(c) || (c in t && !('a' <= c && c as int - 'a' as int < k))
  {
    if t != [] {
      if c in Relabel(t[0], alphabet, k) {
      } else {
        RelabelChars(t[1..], alphabet, k, c);
      }
    }
  }
}
