/** `QSDragAdapter.TileParser`: turns a Quick Settings tile key into the title
    and icon shown for the tile. Keys come in three kinds: `intent(...)` keys,
    `custom(package/component)` keys naming a third-party tile service, and the
    plain names of the platform's own tiles (`wifi`, `bt`, ...). */
module TileParser {
  import opened Wrappers
  import opened Strings

  /** A service component as the package manager addresses it. */
  datatype ComponentName = ComponentName(package: string, className: string)

  /** The package manager, reduced to the label of every service it can
      resolve; `getServiceInfo` throws for a component absent from the map. */
  datatype PackageManager = PackageManager(serviceLabels: map<ComponentName, string>)

  /** The icons a tile can show: the drawables of the standard-tile table, the
      generic Android icon, or the icon loaded from a resolved service. */
  datatype Icon =
    | WifiIcon | BluetoothIcon | InvertColorsIcon | CellularIcon | DoNotDisturbIcon
    | AirplaneIcon | CastIcon | LocationIcon | RotationIcon | FlashlightIcon
    | HotspotIcon | BatteryIcon | SoundIcon | SyncIcon | NfcIcon | DataUsageIcon
    | AndroidIcon
    | ServiceIcon(component: ComponentName)

  datatype Kind = IntentKey | CustomKey | StandardKey

  datatype ParsedTile = ParsedTile(title: string, icon: Icon)

  /** The one exception parsing can raise: a custom key whose name has no
      `/`, so that `split("/")[1]` is out of bounds. */
  datatype ParseError = MissingComponent(name: string)

  // ---------------------------------------------------------------------
  // Classification

  /** The kind of a key. The tests are made on the lower-cased key and in
      order, so a key mentioning both `intent(` and `custom(` is an intent key. */
  function Classify(key: string): (k: Kind)
    ensures k == IntentKey <==> Contains(Lower(key), "intent(")
    ensures k == CustomKey <==> !Contains(Lower(key), "intent(") && Contains(Lower(key), "custom(")
    ensures k == StandardKey <==> !Contains(Lower(key), "intent(") && !Contains(Lower(key), "custom(")
  {
    var lower := Lower(key);
    if Contains(lower, "intent(") then IntentKey
    else if Contains(lower, "custom(") then CustomKey
    else StandardKey
  }

  /** Changing the case of any letters of a key does not change its kind. */
  lemma {:induction false} ClassifyIgnoresCase(a: string, b: string)
    requires |a| == |b|
    requires forall i :: 0 <= i < |a| ==> LowerChar(a[i]) == LowerChar(b[i])
    ensures Classify(a) == Classify(b)
  {
    assert Lower(a) == Lower(b);
  }

  /** In particular a key and its upper- or lower-cased forms have one kind. */
  lemma ClassifyCaseForms(key: string)
    ensures Classify(Lower(key)) == Classify(key)
    ensures Classify(Upper(key)) == Classify(key)
  {
    ClassifyIgnoresCase(Lower(key), key);
    ClassifyIgnoresCase(Upper(key), key);
  }

  // ---------------------------------------------------------------------
  // The last `\((.*?)\)` match

  /** The characters `.` does not match without the DOTALL flag. On Android
      `java.util.regex` runs on the ICU engine, whose line terminators are
      LF, VT, FF, CR, NEL, LINE SEPARATOR and PARAGRAPH SEPARATOR. */
  predicate LineTerminator(c: char) {
    || c == '\n' || c == '\U{B}' || c == '\U{C}' || c == '\r'
    || c == '\U{85}' || c == '\U{2028}' || c == '\U{2029}'
  }

  /** `s[start..end]` is a match of `\((.*?)\)` begun at `start`: an opening
      parenthesis, then the shortest run of characters other than line
      terminators that reaches a closing one. */
  ghost predicate IsMatch(s: string, start: int, end: int) {
    && 0 <= start && start + 2 <= end <= |s|
    && s[start] == '(' && s[end - 1] == ')'
    && forall k :: start < k < end - 1 ==> s[k] != ')' && !LineTerminator(s[k])
  }

  /** No match begins before `k` and ends after it: `k` is a place a
      left-to-right scan for matches can reach. */
  ghost predicate NoMatchAcross(s: string, k: int) {
    forall p, e :: p < k < e ==> !IsMatch(s, p, e)
  }

  /** `s[start..end]` is the last match a left-to-right scan finds: the scan
      can reach `start`, and no match begins at or after `end`. */
  ghost predicate IsLastMatch(s: string, start: int, end: int) {
    && IsMatch(s, start, end)
    && NoMatchAcross(s, start)
    && forall p, e :: end <= p ==> !IsMatch(s, p, e)
  }

  /** Where the lazy group started at `k` closes: one past the first `)` at
      or after `k`, provided no line terminator comes first. */
  function CloseFrom(s: string, k: nat): (end: Option<nat>)
    ensures forall e :: end == Some(e) <==>
      (&& k < e <= |s| && s[e - 1] == ')'
       && forall j :: k <= j < e - 1 ==> s[j] != ')' && !LineTerminator(s[j]))
    decreases |s| - k
  {
    if k >= |s| then None
    else if s[k] == ')' then Some(k + 1)
    else if LineTerminator(s[k]) then None
    else CloseFrom(s, k + 1)
  }

  /** The end of the match begun at `start`, if there is one. */
  function MatchAt(s: string, start: nat): (end: Option<nat>)
    ensures forall e :: end == Some(e) <==> IsMatch(s, start, e)
  {
    if start < |s| && s[start] == '(' then CloseFrom(s, start + 1) else None
  }

  /** `Matcher.find()` from position `from`: the leftmost match beginning
      there or later. */
  function FindFrom(s: string, from: nat): (m: Option<(nat, nat)>)
    ensures m.Some? ==> && from <= m.value.0 && IsMatch(s, m.value.0, m.value.1)
                        && forall p, e :: from <= p < m.value.0 ==> !IsMatch(s, p, e)
    ensures m.None? ==> forall p, e :: from <= p ==> !IsMatch(s, p, e)
    decreases |s| - from
  {
    if from >= |s| then None
    else match MatchAt(s, from)
      case Some(e) => Some((from, e))
      case None => FindFrom(s, from + 1)
  }

  /** The matcher loop of `parseIntent` and `parseCustom`, which calls `find`
      until the matcher reports that it hit the end of the input and remembers
      the text of every successful find. Each find resumes where the previous
      match ended, so the loop keeps the text of the last match (`last` when
      there is none). A failed find has scanned to the end of the input, so
      the loop stops there. */
  function LastMatchFrom(s: string, from: nat, last: string): (r: string)
    ensures r == last || exists p, e :: from <= p && IsMatch(s, p, e) && r == s[p..e]
    decreases |s| - from
  {
    match FindFrom(s, from)
    case None => last
    case Some((p, e)) =>
      assert from <= p && IsMatch(s, p, e);
      LastMatchFrom(s, e, s[p..e])
  }

  /** What the scan knows on reaching `from`: either nothing matched before
      it, or `last` is a reachable match after which nothing has matched. */
  ghost predicate ScannedTo(s: string, from: int, last: string) {
    || (last == "" && forall p, e :: p < from ==> !IsMatch(s, p, e))
    || (exists p, e :: && IsMatch(s, p, e) && NoMatchAcross(s, p) && e <= from && last == s[p..e]
                        && forall p', e' :: e <= p' < from ==> !IsMatch(s, p', e'))
  }

  /** A match ends with `)`, which no later-closing match can contain, so
      the scan can always reach the end of a match. */
  lemma MatchEndReachable(s: string, p: int, e: int)
    requires IsMatch(s, p, e)
    ensures NoMatchAcross(s, e)
  {
  }

  lemma {:induction false} LastMatchFromIsLast(s: string, from: nat, last: string)
    requires NoMatchAcross(s, from)
    requires ScannedTo(s, from, last)
    ensures var r := LastMatchFrom(s, from, last);
            || (r == "" && forall p, e :: !IsMatch(s, p, e))
            || (exists p, e :: IsLastMatch(s, p, e) && r == s[p..e])
    decreases |s| - from
  {
    match FindFrom(s, from)
    case None =>
      if last != "" {
        var p, e :| && IsMatch(s, p, e) && NoMatchAcross(s, p) && e <= from && last == s[p..e]
                     && forall p', e' :: e <= p' < from ==> !IsMatch(s, p', e');
        assert IsLastMatch(s, p, e);
      }
    case Some((p, e)) =>
      MatchEndReachable(s, p, e);
      assert NoMatchAcross(s, p);
      assert ScannedTo(s, e, s[p..e]);
      LastMatchFromIsLast(s, e, s[p..e]);
  }

  /** The text of the last match of `\((.*?)\)` in `s`, parentheses included,
      or `""` when nothing matches. */
  function LastGroup(s: string): (r: string)
    ensures r == "" <==> forall p, e :: !IsMatch(s, p, e)
    ensures r != "" ==> exists p, e :: IsLastMatch(s, p, e) && r == s[p..e]
  {
    LastMatchFromIsLast(s, 0, "");
    LastMatchFrom(s, 0, "")
  }

  /** The last match is unique: the scan can reach only one match after
      which nothing else matches. */
  lemma LastMatchUnique(s: string, p1: int, e1: int, p2: int, e2: int)
    requires IsLastMatch(s, p1, e1) && IsLastMatch(s, p2, e2)
    ensures p1 == p2 && e1 == e2
  {
  }

  /** The name inside the last parenthesised group: the last match with every
      `(` and `)` removed, `""` when there is no match. Since a match holds no
      `)` between its delimiters, this is the match's interior without `(`. */
  function GroupName(key: string): (name: string)
    ensures '(' !in name && ')' !in name
    ensures (forall p, e :: !IsMatch(key, p, e)) ==> name == ""
    ensures forall p, e :: IsLastMatch(key, p, e) ==> name == RemoveAll(key[p + 1..e - 1], '(')
  {
    LastGroupInterior(key);
    RemoveAll(RemoveAll(LastGroup(key), '('), ')')
  }

  lemma LastGroupInterior(key: string)
    ensures forall p, e :: IsLastMatch(key, p, e) ==>
              RemoveAll(RemoveAll(LastGroup(key), '('), ')') == RemoveAll(key[p + 1..e - 1], '(')
  {
    forall p, e | IsLastMatch(key, p, e)
      ensures RemoveAll(RemoveAll(LastGroup(key), '('), ')') == RemoveAll(key[p + 1..e - 1], '(')
    {
      var p', e' :| IsLastMatch(key, p', e') && LastGroup(key) == key[p'..e'];
      LastMatchUnique(key, p, e, p', e');
      InteriorName(key, p, e);
    }
  }

  /** Removing the parentheses from a match leaves its interior without `(`. */
  lemma InteriorName(s: string, p: int, e: int)
    requires IsMatch(s, p, e)
    ensures RemoveAll(RemoveAll(s[p..e], '('), ')') == RemoveAll(s[p + 1..e - 1], '(')
  {
    var inner := s[p + 1..e - 1];
    assert s[p..e] == "(" + inner + ")";
    RemoveAllConcat("(" + inner, ")", '(');
    RemoveAllConcat("(", inner, '(');
    var kept := RemoveAll(inner, '(');
    assert RemoveAll(s[p..e], '(') == kept + ")";
    assert ')' !in inner;
    assert ')' !in kept;
    RemoveAllConcat(kept, ")", ')');
    RemoveAllAbsent(kept, ')');
  }

  // ---------------------------------------------------------------------
  // Custom tiles

  /** `name.split("/")[0]` and `name.split("/")[1]`: the text before the first
      `/` and the text between it and the next `/` (or the end). There is no
      second piece, and the source's index throws, exactly when `name` has no
      `/`. */
  function SplitComponent(name: string): (r: Option<(string, string)>)
    ensures r.None? <==> '/' !in name
    ensures r.Some? ==> var (pkg, comp) := r.value;
      && '/' !in pkg && '/' !in comp
      && (name == pkg + "/" + comp || StartsWith(name, pkg + "/" + comp + "/"))
  {
    var parts := Split(name, '/');
    if |parts| < 2 then None
    else
      FirstTwoPieces(name, '/');
      Some((parts[0], parts[1]))
  }

  /** `split(".")` followed by taking the last piece: the longest suffix of
      `s` without a `.`. */
  function LastSegment(s: string): (r: string)
    ensures '.' !in r
    ensures |r| <= |s| && s[|s| - |r|..] == r
    ensures |r| < |s| ==> s[|s| - |r| - 1] == '.'
  {
    var parts := Split(s, '.');
    SplitLast(s, '.');
    parts[|parts| - 1]
  }

  /** `parseCustom`: the service named by the last group is looked up as
      `ComponentName(package, package + component)`. A resolved service gives
      its own label and icon; otherwise the title falls back to the last
      dotted segment of the component and the icon to the Android icon. */
  function ParseCustom(key: string, pm: PackageManager): (r: Result<ParsedTile, ParseError>)
    ensures r.Failure? <==> '/' !in GroupName(key)
    ensures r.Failure? ==> r.error == MissingComponent(GroupName(key))
    ensures r.Success? ==>
      var (pkg, comp) := SplitComponent(GroupName(key)).value;
      var cn := ComponentName(pkg, pkg + comp);
      && (cn in pm.serviceLabels ==> r.value == ParsedTile(pm.serviceLabels[cn], ServiceIcon(cn)))
      && (cn !in pm.serviceLabels ==> r.value == ParsedTile(LastSegment(comp), AndroidIcon))
  {
    var name := GroupName(key);
    match SplitComponent(name)
    case None => Failure(MissingComponent(name))
    case Some((pkg, comp)) =>
      var cn := ComponentName(pkg, pkg + comp);
      if cn in pm.serviceLabels then Success(ParsedTile(pm.serviceLabels[cn], ServiceIcon(cn)))
      else Success(ParsedTile(LastSegment(comp), AndroidIcon))
  }

  // ---------------------------------------------------------------------
  // Intent tiles

  /** `parseIntent`: the Android icon and the name of the last group. */
  function ParseIntent(key: string): (r: ParsedTile)
    ensures r.icon == AndroidIcon
    ensures '(' !in r.title && ')' !in r.title
    ensures (forall p, e :: !IsMatch(key, p, e)) ==> r.title == ""
    ensures forall p, e :: IsLastMatch(key, p, e) ==> r.title == RemoveAll(key[p + 1..e - 1], '(')
  {
    ParsedTile(GroupName(key), AndroidIcon)
  }

  // ---------------------------------------------------------------------
  // Standard tiles

  /** The `capitalize` helper as written: split on single spaces, drop the
      empty words, upper-case each word's first character and concatenate. */
  function CapitalizeWords(words: seq<string>): (r: string)
    ensures |r| == TotalLength(words)
    ensures (forall i :: 0 <= i < |words| ==> ' ' !in words[i]) ==> ' ' !in r
    decreases |words|
  {
    if |words| == 0 then ""
    else
      (if |words[0]| == 0 then "" else [UpperChar(words[0][0])] + words[0][1..])
      + CapitalizeWords(words[1..])
  }

  /** Character-by-character reading of `capitalize`: spaces disappear, a
      character that starts a word is upper-cased, every other character is
      kept as it is. */
  function CapitalizeScan(s: string, wordStart: bool): (r: string)
    ensures ' ' !in r
    ensures |r| == |s| - Occurrences(s, ' ')
    ensures wordStart && |r| > 0 ==> UpperChar(r[0]) == r[0]
    ensures !wordStart && ' ' !in s ==> r == s
    decreases |s|
  {
    if |s| == 0 then ""
    else if s[0] == ' ' then CapitalizeScan(s[1..], true)
    else
      assert ' ' in s[1..] ==> ' ' in s;
      [if wordStart then UpperChar(s[0]) else s[0]] + CapitalizeScan(s[1..], false)
  }

  /** The word-splitting definition and the character scan agree. Inside a
      word the scan reproduces the rest of the current piece and then the
      capitalized later pieces; at a word start it capitalizes them all. */
  lemma {:induction false} CapitalizeWordsIsScan(s: string)
    ensures var words := Split(s, ' ');
            CapitalizeScan(s, false) == words[0] + CapitalizeWords(words[1..])
    ensures CapitalizeScan(s, true) == CapitalizeWords(Split(s, ' '))
    decreases |s|
  {
    if |s| > 0 {
      CapitalizeWordsIsScan(s[1..]);
      if s[0] == ' ' {
        ScanAtSpace(s);
      } else {
        ScanInWord(s);
      }
    }
  }

  lemma ScanAtSpace(s: string)
    requires |s| > 0 && s[0] == ' '
    requires CapitalizeScan(s[1..], true) == CapitalizeWords(Split(s[1..], ' '))
    ensures var words := Split(s, ' ');
            CapitalizeScan(s, false) == words[0] + CapitalizeWords(words[1..])
    ensures CapitalizeScan(s, true) == CapitalizeWords(Split(s, ' '))
  {
  }

  lemma ScanInWord(s: string)
    requires |s| > 0 && s[0] != ' '
    requires var rest := Split(s[1..], ' ');
             CapitalizeScan(s[1..], false) == rest[0] + CapitalizeWords(rest[1..])
    ensures var words := Split(s, ' ');
            CapitalizeScan(s, false) == words[0] + CapitalizeWords(words[1..])
    ensures CapitalizeScan(s, true) == CapitalizeWords(Split(s, ' '))
  {
    var rest := Split(s[1..], ' ');
    var first := [s[0]] + rest[0];
    var later := CapitalizeWords(rest[1..]);
    var tail := CapitalizeScan(s[1..], false);
    assert Split(s, ' ') == [first] + rest[1..];
    assert CapitalizeScan(s, false) == [s[0]] + tail;
    assert CapitalizeScan(s, true) == [UpperChar(s[0])] + tail;
    assert first[0] == s[0] && first[1..] == rest[0];
    CapitalizeWordsCons(first, rest[1..]);
    PrependToPiece(s[0], rest[0], later);
    PrependToPiece(UpperChar(s[0]), rest[0], later);
  }

  lemma PrependToPiece(c: char, piece: string, later: string)
    ensures [c] + (piece + later) == ([c] + piece) + later
  {
  }

  lemma CapitalizeWordsCons(word: string, words: seq<string>)
    ensures CapitalizeWords([word] + words)
            == (if |word| == 0 then "" else [UpperChar(word[0])] + word[1..]) + CapitalizeWords(words)
  {
  }

  /** `capitalize`: the words of `s` with their first characters upper-cased,
      run together. */
  function Capitalize(s: string): (r: string)
    ensures r == CapitalizeScan(s, true)
    ensures ' ' !in r
    ensures |r| == |s| - Occurrences(s, ' ')
  {
    CapitalizeWordsIsScan(s);
    CapitalizeWords(Split(s, ' '))
  }

  /** Capitalizing twice is capitalizing once: the result is a single word
      whose first character is already upper case. */
  lemma CapitalizeIdempotent(s: string)
    ensures Capitalize(Capitalize(s)) == Capitalize(s)
  {
  }

  /** The names the icon table recognises. */
  const IconTableKeys: set<string> := {
    "wifi", "bluetooth", "bt", "color_inversion", "inversion", "cell",
    "do_not_disturb", "dnd", "airplane", "cast", "location", "rotation",
    "flashlight", "hotspot", "battery", "sound", "sync", "nfc", "data"
  }

  /** The icon table of `parseStandard`, looked up with the lower-cased key. */
  function StandardIcon(lowerKey: string): (r: Icon)
    ensures r == AndroidIcon <==> lowerKey !in IconTableKeys
    ensures !r.ServiceIcon?
  {
    if lowerKey == "wifi" then WifiIcon
    else if lowerKey == "bluetooth" || lowerKey == "bt" then BluetoothIcon
    else if lowerKey == "color_inversion" || lowerKey == "inversion" then InvertColorsIcon
    else if lowerKey == "cell" then CellularIcon
    else if lowerKey == "do_not_disturb" || lowerKey == "dnd" then DoNotDisturbIcon
    else if lowerKey == "airplane" then AirplaneIcon
    else if lowerKey == "cast" then CastIcon
    else if lowerKey == "location" then LocationIcon
    else if lowerKey == "rotation" then RotationIcon
    else if lowerKey == "flashlight" then FlashlightIcon
    else if lowerKey == "hotspot" then HotspotIcon
    else if lowerKey == "battery" then BatteryIcon
    else if lowerKey == "sound" then SoundIcon
    else if lowerKey == "sync" then SyncIcon
    else if lowerKey == "nfc" then NfcIcon
    else if lowerKey == "data" then DataUsageIcon
    else AndroidIcon
  }

  /** The table maps each alias to the icon of the name it abbreviates. */
  lemma StandardIconAliases()
    ensures StandardIcon("bt") == StandardIcon("bluetooth")
    ensures StandardIcon("inversion") == StandardIcon("color_inversion")
    ensures StandardIcon("dnd") == StandardIcon("do_not_disturb")
  {
  }

  /** `parseStandard`: the capitalized lower-cased key as title, the icon of
      the lower-cased key from the table. */
  function ParseStandard(key: string): (r: ParsedTile)
    ensures r.title == Capitalize(Lower(key))
    ensures ' ' !in r.title && |r.title| == |key| - Occurrences(key, ' ')
    ensures r.icon == StandardIcon(Lower(key))
  {
    LowerKeepsSpaces(key);
    ParsedTile(Capitalize(Lower(key)), StandardIcon(Lower(key)))
  }

  // ---------------------------------------------------------------------
  // parseKey

  /** Whether parsing a key succeeds. The package manager plays no part:
      its failures are all caught. */
  predicate Parses(key: string) {
    Classify(key) != CustomKey || '/' in GroupName(key)
  }

  /** `parseKey`: dispatch on the kind of the key. */
  function ParseKey(key: string, pm: PackageManager): (r: Result<ParsedTile, ParseError>)
    ensures r.Success? <==> Parses(key)
    ensures Classify(key) == IntentKey ==> r == Success(ParseIntent(key))
    ensures Classify(key) == CustomKey ==> r == ParseCustom(key, pm)
    ensures Classify(key) == StandardKey ==> r == Success(ParseStandard(key))
  {
    match Classify(key)
    case IntentKey => Success(ParseIntent(key))
    case CustomKey => ParseCustom(key, pm)
    case StandardKey => Success(ParseStandard(key))
  }
}
