/** The pure parts of RenameZipFile in TrimZip/TrimZipApplication.cs: the map that
    turns full-width characters of a title into their ASCII forms, and the search
    for a destination name that is not taken yet ("name__2.ext", "name__3.ext", ...). */
module Renaming {

  // ---------------------------------------------------------------------------
  // Full-width to half-width map.

  /** Distance between a full-width form (U+FF01 .. U+FF5E) and its ASCII counterpart. */
  const FullWidthOffset: int := 0xFEE0

  predicate IsFullWidthForm(c: char)
  {
    '\U{FF01}' <= c <= '\U{FF5E}'
  }

  /** The full-width forms the map leaves alone: the quotation mark, apostrophe,
      hyphen-minus, solidus, colon, less-than, greater-than, question mark, reverse
      solidus, grave accent, vertical line and tilde. */
  const KeptFullWidthForms: set<char> := {
    '\U{FF02}', '\U{FF07}', '\U{FF0D}', '\U{FF0F}', '\U{FF1A}', '\U{FF1C}',
    '\U{FF1E}', '\U{FF1F}', '\U{FF3C}', '\U{FF40}', '\U{FF5C}', '\U{FF5E}'}

  /** The four characters outside the full-width block that the map changes. */
  predicate IsMappedOutsideBlock(c: char)
  {
    c == '\U{3000}' || c == '\U{2019}' || c == '\U{2018}' || c == '\U{2010}'
  }

  function ToHalfWidth(c: char): char
  {
    if '\U{FF10}' <= c <= '\U{FF19}' then (c as int - '\U{FF10}' as int + '0' as int) as char
    else if '\U{FF21}' <= c <= '\U{FF3A}' then (c as int - '\U{FF21}' as int + 'A' as int) as char
    else if '\U{FF41}' <= c <= '\U{FF5A}' then (c as int - '\U{FF41}' as int + 'a' as int) as char
    else match c
      case '\U{3000}' => ' '
      case '\U{FF01}' => '!'
      case '\U{FF03}' => '#'
      case '\U{FF04}' => '$'
      case '\U{FF05}' => '%'
      case '\U{FF06}' => '&'
      case '\U{2019}' => '\''
      case '\U{FF08}' => '('
      case '\U{FF09}' => ')'
      case '\U{FF1D}' => '='
      case '\U{2010}' => '-'
      case '\U{FF3E}' => '^'
      case '\U{FF20}' => '@'
      case '\U{2018}' => '`'
      case '\U{FF3B}' => '['
      case '\U{FF3D}' => ']'
      case '\U{FF5B}' => '{'
      case '\U{FF5D}' => '}'
      case '\U{FF0B}' => '+'
      case '\U{FF0A}' => '*'
      case '\U{FF1B}' => ';'
      case '\U{FF0C}' => ','
      case '\U{FF0E}' => '.'
      case '\U{FF3F}' => '_'
      case _ => c
  }

  /** Within the full-width block every form but the twelve kept ones becomes the
      ASCII character 0xFEE0 below it. */
  lemma FullWidthFormsShiftDown(c: char)
    requires IsFullWidthForm(c)
    ensures c in KeptFullWidthForms ==> ToHalfWidth(c) == c
    ensures c !in KeptFullWidthForms ==> ToHalfWidth(c) as int == c as int - FullWidthOffset
  {
    if c < '\U{FF10}' {
    } else if c <= '\U{FF19}' {
    } else if c < '\U{FF21}' {
    } else if c <= '\U{FF3A}' {
    } else if c < '\U{FF41}' {
    } else if c <= '\U{FF5A}' {
    } else {
    }
  }

  /** Outside the block, the ideographic space and the three punctuation marks become
      ' ', '\'', '`' and '-'; every other character is kept. */
  lemma OtherCharactersAreKept(c: char)
    requires !IsFullWidthForm(c)
    ensures c == '\U{3000}' ==> ToHalfWidth(c) == ' '
    ensures c == '\U{2019}' ==> ToHalfWidth(c) == '\''
    ensures c == '\U{2018}' ==> ToHalfWidth(c) == '`'
    ensures c == '\U{2010}' ==> ToHalfWidth(c) == '-'
    ensures !IsMappedOutsideBlock(c) ==> ToHalfWidth(c) == c
  {
  }

  /** Applying the map twice changes nothing more. */
  lemma ToHalfWidthIsIdempotent(c: char)
    ensures ToHalfWidth(ToHalfWidth(c)) == ToHalfWidth(c)
  {
    if IsFullWidthForm(c) {
      FullWidthFormsShiftDown(c);
    } else {
      OtherCharactersAreKept(c);
    }
  }

  /** Of the characters a Windows file name may not hold, the map yields only '*'
      (from U+FF0A); the full-width solidus, reverse solidus, colon, question mark,
      quotation mark, less-than, greater-than and vertical line are left as they are. */
  lemma ReservedCharactersAreNotProduced(c: char)
    ensures ToHalfWidth(c) in "\\/:?\"<>|" ==> ToHalfWidth(c) == c
    ensures ToHalfWidth(c) == '*' ==> c == '*' || c == '\U{FF0A}'
  {
  }

  /** A character the map has nothing more to do with: neither a full-width form it
      shifts nor one of the four characters it replaces outside the block. */
  predicate IsHalfWidthNormal(c: char)
  {
    (IsFullWidthForm(c) ==> c in KeptFullWidthForms) && !IsMappedOutsideBlock(c)
  }

  /** Every character the map yields is in normal form. */
  lemma ToHalfWidthIsNormal(c: char)
    ensures IsHalfWidthNormal(ToHalfWidth(c))
  {
    if IsFullWidthForm(c) {
      FullWidthFormsShiftDown(c);
    } else {
      OtherCharactersAreKept(c);
    }
  }

  /** The map over a whole name: the name keeps its length, and no character of the
      result is a full-width form outside the kept twelve, an ideographic space,
      a hyphen U+2010 or a single quotation mark U+2018/U+2019. */
  function NormalizeWidth(s: string): (t: string)
    ensures |t| == |s| && forall i :: 0 <= i < |s| ==> t[i] == ToHalfWidth(s[i])
    ensures forall i :: 0 <= i < |t| ==> IsHalfWidthNormal(t[i])
  {
    var t := seq(|s|, i requires 0 <= i < |s| => ToHalfWidth(s[i]));
    assert forall i :: 0 <= i < |t| ==> IsHalfWidthNormal(t[i]) by {
      forall i | 0 <= i < |t| ensures IsHalfWidthNormal(t[i]) {
        ToHalfWidthIsNormal(s[i]);
      }
    }
    t
  }

  /** A name already in normal form is left as it is. */
  lemma {:induction false} NormalNameIsKept(s: string)
    requires forall i :: 0 <= i < |s| ==> IsHalfWidthNormal(s[i])
    ensures NormalizeWidth(s) == s
  {
    forall i | 0 <= i < |s| ensures NormalizeWidth(s)[i] == s[i] {
      if IsFullWidthForm(s[i]) {
        FullWidthFormsShiftDown(s[i]);
      } else {
        OtherCharactersAreKept(s[i]);
      }
    }
  }

  lemma NormalizeWidthIsIdempotent(s: string)
    ensures NormalizeWidth(NormalizeWidth(s)) == NormalizeWidth(s)
  {
    NormalNameIsKept(NormalizeWidth(s));
  }

  // ---------------------------------------------------------------------------
  // Decimal formatting of the counter.

  predicate IsDigit(c: char)
  {
    '0' <= c <= '9'
  }

  function DigitChar(d: nat): (c: char)
    requires d < 10
    ensures IsDigit(c)
  {
    ('0' as int + d) as char
  }

  function DigitValue(c: char): (d: nat)
    requires IsDigit(c)
    ensures d < 10 && DigitChar(d) == c
  {
    c as int - '0' as int
  }

  /** The decimal form of n, without leading zeros. */
  function DecimalString(n: nat): (s: string)
    ensures |s| >= 1 && forall i :: 0 <= i < |s| ==> IsDigit(s[i])
    ensures |s| > 1 ==> s[0] != '0'
    decreases n
  {
    if n < 10 then [DigitChar(n)] else DecimalString(n / 10) + [DigitChar(n % 10)]
  }

  function ParseDecimal(s: string): nat
    requires forall i :: 0 <= i < |s| ==> IsDigit(s[i])
    decreases |s|
  {
    if |s| == 0 then 0 else 10 * ParseDecimal(s[..|s| - 1]) + DigitValue(s[|s| - 1])
  }

  /** Reading the formatted number back gives the number. */
  lemma {:induction false} ParseDecimalString(n: nat)
    ensures ParseDecimal(DecimalString(n)) == n
    decreases n
  {
    var s := DecimalString(n);
    if n >= 10 {
      ParseDecimalString(n / 10);
      assert s[..|s| - 1] == DecimalString(n / 10);
    }
  }

  /** Distinct counters are formatted differently. */
  lemma DecimalStringIsInjective(a: nat, b: nat)
    requires DecimalString(a) == DecimalString(b)
    ensures a == b
  {
    ParseDecimalString(a);
    ParseDecimalString(b);
  }

  // ---------------------------------------------------------------------------
  // Splitting a file name the way .NET's Path.GetExtension and
  // Path.GetFileNameWithoutExtension do, with '\' and '/' as separators.

  predicate IsDirectorySeparator(c: char)
  {
    c == '\\' || c == '/'
  }

  /** Where the last path component starts. */
  function FileNameStart(path: string): (k: nat)
    ensures k <= |path| && (k > 0 ==> IsDirectorySeparator(path[k - 1]))
    ensures forall i :: k <= i < |path| ==> !IsDirectorySeparator(path[i])
    decreases |path|
  {
    if |path| == 0 then 0
    else if IsDirectorySeparator(path[|path| - 1]) then |path|
    else FileNameStart(path[..|path| - 1])
  }

  /** Index of the last '.', or -1. */
  function LastDot(name: string): (k: int)
    ensures -1 <= k < |name| && (k >= 0 ==> name[k] == '.')
    ensures forall i :: k < i < |name| ==> name[i] != '.'
    decreases |name|
  {
    if |name| == 0 then -1
    else if name[|name| - 1] == '.' then |name| - 1
    else LastDot(name[..|name| - 1])
  }

  /** The extension with its dot; empty when there is no dot or the dot ends the name. */
  function GetExtension(path: string): string
  {
    var name := path[FileNameStart(path)..];
    var k := LastDot(name);
    if k < 0 || k == |name| - 1 then [] else name[k..]
  }

  /** The last path component up to, not including, its last dot. */
  function GetFileNameWithoutExtension(path: string): string
  {
    var name := path[FileNameStart(path)..];
    var k := LastDot(name);
    if k < 0 then name else name[..k]
  }

  /** For a name with no separator, the two parts put back together give the name,
      except that a dot ending the name is lost. */
  lemma SplitRebuildsName(name: string)
    requires forall i :: 0 <= i < |name| ==> !IsDirectorySeparator(name[i])
    ensures var rebuilt := GetFileNameWithoutExtension(name) + GetExtension(name);
      if |name| > 0 && name[|name| - 1] == '.' then rebuilt + "." == name else rebuilt == name
  {
    assert FileNameStart(name) == 0;
    assert name[0..] == name;
    var k := LastDot(name);
    if 0 <= k {
      assert name[..k] + name[k..] == name;
    }
  }

  // ---------------------------------------------------------------------------
  // Collision naming.

  /** The name tried for counter `count`: stem, "__", the counter, the extension. */
  function CollisionName(fileName: string, count: nat): string
  {
    GetFileNameWithoutExtension(fileName) + "__" + DecimalString(count) + GetExtension(fileName)
  }

  /** Distinct counters give distinct names, so no name is tried twice. */
  lemma CollisionNameIsInjective(fileName: string, a: nat, b: nat)
    requires CollisionName(fileName, a) == CollisionName(fileName, b)
    ensures a == b
  {
    var stem := GetFileNameWithoutExtension(fileName);
    var da, db := DecimalString(a), DecimalString(b);
    var lo := |stem| + 2;
    assert CollisionName(fileName, a)[lo..lo + |da|] == da;
    assert CollisionName(fileName, b)[lo..lo + |db|] == db;
    DecimalStringIsInjective(a, b);
  }

  /** Every name for the counters 2 .. count - 1 is taken. */
  predicate AllTaken(fileName: string, existing: set<string>, count: nat)
  {
    forall k :: 2 <= k < count ==> CollisionName(fileName, k) in existing
  }

  /** Every name in `tried` belongs to a counter below `count`. */
  predicate TriedBelow(fileName: string, tried: set<string>, count: nat)
  {
    forall x :: x in tried ==> exists k :: 2 <= k < count && x == CollisionName(fileName, k)
  }

  /** A name tried for a counter below `count` is not the name for `count`. */
  lemma NotTriedYet(fileName: string, tried: set<string>, count: nat)
    requires TriedBelow(fileName, tried, count)
    ensures CollisionName(fileName, count) !in tried
  {
    if CollisionName(fileName, count) in tried {
      var k :| 2 <= k < count && CollisionName(fileName, count) == CollisionName(fileName, k);
      CollisionNameIsInjective(fileName, k, count);
    }
  }

  /** Finding the name for `count` taken extends both loop facts to count + 1. */
  lemma TakenStep(fileName: string, existing: set<string>, tried: set<string>, count: nat)
    requires 2 <= count && AllTaken(fileName, existing, count) && TriedBelow(fileName, tried, count)
    requires CollisionName(fileName, count) in existing
    ensures AllTaken(fileName, existing, count + 1)
    ensures TriedBelow(fileName, tried + {CollisionName(fileName, count)}, count + 1)
  {
    var name := CollisionName(fileName, count);
    forall x | x in tried + {name} ensures exists k :: 2 <= k < count + 1 && x == CollisionName(fileName, k) {
      if x in tried {
        var k :| 2 <= k < count && x == CollisionName(fileName, k);
        assert 2 <= k < count + 1;
      } else {
        assert 2 <= count < count + 1 && x == CollisionName(fileName, count);
      }
    }
  }

  /** Trying one more taken name leaves fewer untried taken names. */
  lemma FewerUntried(existing: set<string>, tried: set<string>, name: string)
    requires name in existing && name !in tried
    ensures |existing - (tried + {name})| < |existing - tried|
  {
    var rest := existing - tried;
    assert existing - (tried + {name}) == rest - {name};
    assert rest == (rest - {name}) + {name};
  }

  /** The destination name: the name itself when free, otherwise the first of
      name__2, name__3, ... that is free. `existing` holds the names already
      present in the destination directory. */
  method ChooseDestinationName(destinationFileName: string, existing: set<string>) returns (chosen: string)
    ensures chosen !in existing
    ensures destinationFileName !in existing ==> chosen == destinationFileName
    ensures destinationFileName in existing ==>
      exists count :: 2 <= count && chosen == CollisionName(destinationFileName, count)
        && AllTaken(destinationFileName, existing, count)
  {
    if destinationFileName !in existing {
      return destinationFileName;
    }
    var count := 2;
    ghost var tried: set<string> := {};
    while true
      invariant 2 <= count
      invariant AllTaken(destinationFileName, existing, count)
      invariant tried <= existing && TriedBelow(destinationFileName, tried, count)
      decreases |existing - tried|
    {
      var newDestinationFileName := CollisionName(destinationFileName, count);
      if newDestinationFileName !in existing {
        return newDestinationFileName;
      }
      NotTriedYet(destinationFileName, tried, count);
      FewerUntried(existing, tried, newDestinationFileName);
      TakenStep(destinationFileName, existing, tried, count);
      tried := tried + {newDestinationFileName};
      count := count + 1;
    }
  }
}
