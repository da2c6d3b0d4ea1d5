/**
 * The model list (`ModelListCtrl`): the folder path the list shows, as a stack the breadcrumb
 * truncates and opening a folder pushes, and the date stamp of download file names.
 */
module ModelList {
  import opened Wrappers
  import opened JsLib

  /** The list request `readModelList` sends for a folder path: the root, or the folder. */
  datatype ListRequest = ListRoot | ListFolder(path: seq<string>)

  function ReadModelList(folder: seq<string>): (r: ListRequest)
    ensures r == ListRoot <==> folder == []
    ensures r.ListFolder? ==> r.path == folder
  {
    if |folder| > 0 then ListFolder(folder) else ListRoot
  }

  /**
   * The path `setWorkingDir(folderIdx)` keeps: none for an undefined index, otherwise
   * `workingDir.slice(0, folderIdx)`, where a negative index counts from the end.
   */
  function TruncatePath(dir: seq<string>, folderIdx: Option<int>): (r: seq<string>)
    ensures |r| <= |dir| && r == dir[..|r|]
    ensures folderIdx.None? ==> r == []
    ensures folderIdx.Some? && 0 <= folderIdx.value <= |dir| ==> r == dir[..folderIdx.value]
    ensures folderIdx.Some? && |dir| <= folderIdx.value ==> r == dir
    ensures folderIdx.Some? && folderIdx.value < 0 ==>
              |r| == if |dir| + folderIdx.value < 0 then 0 else |dir| + folderIdx.value
  {
    match folderIdx
    case None => []
    case Some(i) => SliceTo(dir, i)
  }

  /** The current folder path and the list requests issued so far. */
  class FolderView {
    var workingDir: seq<string>
    var listRequests: seq<ListRequest>

    /** The controller starts at the root and reads its list. */
    constructor()
      ensures workingDir == [] && listRequests == [ListRoot]
    {
      workingDir := [];
      listRequests := [ReadModelList([])];
    }

    /** `setWorkingDir`: go up to the folder at index folderIdx of the path (to the root if undefined). */
    method SetWorkingDir(folderIdx: Option<int>)
      modifies this
      ensures workingDir == TruncatePath(old(workingDir), folderIdx)
      ensures listRequests == old(listRequests) + [ReadModelList(workingDir)]
    {
      if folderIdx.None? {
        workingDir := [];
      } else {
        workingDir := SliceTo(workingDir, folderIdx.value);
      }
      listRequests := listRequests + [ReadModelList(workingDir)];
    }

    /** `openFolder`: descend into a sub-folder of the current one. */
    method OpenFolder(folder: string)
      modifies this
      ensures workingDir == old(workingDir) + [folder]
      ensures listRequests == old(listRequests) + [ListFolder(workingDir)]
    {
      workingDir := workingDir + [folder];
      listRequests := listRequests + [ReadModelList(workingDir)];
    }
  }

  /** Opening a folder and then choosing its parent in the breadcrumb returns to the parent. */
  lemma OpenThenBack(dir: seq<string>, folder: string)
    ensures TruncatePath(dir + [folder], Some(|dir|)) == dir
    ensures TruncatePath(dir + [folder], Some(-1)) == dir
  {
    assert (dir + [folder])[..|dir|] == dir;
  }

  /** Going up twice is going up to the nearer of the two folders. */
  lemma TruncateTwice(dir: seq<string>, i: nat, j: nat)
    ensures TruncatePath(TruncatePath(dir, Some(i)), Some(j)) == TruncatePath(dir, Some(if i <= j then i else j))
  {
  }

  /* ---- Dates ---- */

  /** A JavaScript value as `+` sees it: a number or a string. */
  datatype JsValue = Num(n: int) | Str(s: string)

  function Digit(d: nat): char
    requires d < 10
  {
    "0123456789"[d]
  }

  predicate IsDigit(c: char) { '0' <= c <= '9' }

  /** The decimal numeral of n, without leading zeros. */
  function NatToString(n: nat): (r: string)
    ensures |r| >= 1 && forall k :: 0 <= k < |r| ==> IsDigit(r[k])
    ensures |r| > 1 ==> r[0] != '0'
  {
    if n < 10 then [Digit(n)] else NatToString(n / 10) + [Digit(n % 10)]
  }

  /** `String(n)` for an integer. */
  function IntToString(i: int): (r: string)
    ensures |r| >= 1
  {
    if i < 0 then "-" + NatToString(-i) else NatToString(i)
  }

  /** JavaScript's `String(v)`. */
  function ToJsString(v: JsValue): string {
    match v
    case Num(n) => IntToString(n)
    case Str(s) => s
  }

  /** JavaScript's `a + b` on numbers and strings: numeric addition, unless either is a string. */
  function JsPlus(a: JsValue, b: JsValue): (r: JsValue)
    ensures a.Num? && b.Num? ==> r == Num(a.n + b.n)
    ensures a.Str? || b.Str? ==> r == Str(ToJsString(a) + ToJsString(b))
  {
    if a.Num? && b.Num? then Num(a.n + b.n) else Str(ToJsString(a) + ToJsString(b))
  }

  function DigitValue(c: char): nat
    requires IsDigit(c)
  {
    (c as int) - ('0' as int)
  }

  /** The value of a string of decimal digits. */
  function ParseNat(s: string): nat
    requires forall k :: 0 <= k < |s| ==> IsDigit(s[k])
  {
    if s == [] then 0 else ParseNat(s[..|s| - 1]) * 10 + DigitValue(s[|s| - 1])
  }

  /** Reading back the numeral of n gives n. */
  lemma {:induction false} ParseNatToString(n: nat)
    ensures ParseNat(NatToString(n)) == n
  {
    if n >= 10 {
      ParseNatToString(n / 10);
      var s := NatToString(n);
      assert s[..|s| - 1] == NatToString(n / 10);
    }
  }

  function Pow10(k: nat): (p: nat)
    ensures p >= 1
  {
    if k == 0 then 1 else 10 * Pow10(k - 1)
  }

  /** A number from 10^(L-1) up to but excluding 10^L has an L-digit numeral. */
  lemma {:induction false} NumeralLength(n: nat, l: nat)
    requires 1 <= l && (l == 1 || Pow10(l - 1) <= n) && n < Pow10(l)
    ensures |NatToString(n)| == l
  {
    if l > 1 {
      NumeralLength(n / 10, l - 1);
    }
  }

  /** A number below 10^L has at most L digits. */
  lemma {:induction false} NumeralLengthAtMost(n: nat, l: nat)
    requires 1 <= l && n < Pow10(l)
    ensures |NatToString(n)| <= l
  {
    if l > 1 && n >= 10 {
      NumeralLengthAtMost(n / 10, l - 1);
    }
  }

  /** A number is below 10 to the power of its numeral's length. */
  lemma {:induction false} BelowPowerOfLength(n: nat)
    ensures n < Pow10(|NatToString(n)|)
  {
    if n >= 10 {
      BelowPowerOfLength(n / 10);
    }
  }

  /** `mm` and `dd` after padding: a string `'0' + n` below ten, the number itself otherwise. */
  function PadAsWritten(n: nat): (r: JsValue)
    ensures n < 10 ==> r == Str("0" + NatToString(n))
    ensures n >= 10 ==> r == Num(n)
  {
    if n < 10 then JsPlus(Str("0"), Num(n)) else Num(n)
  }

  /**
   * `currentDateString` as written, for the day of the month `getDate()` (1 to 31), the month
   * index `getMonth()` (0 to 11) and the year `getFullYear()`: `mm + dd + yyyy`.
   */
  function CurrentDateStringAsWritten(date: int, monthIndex: int, fullYear: int): (r: JsValue)
    requires 1 <= date <= 31 && 0 <= monthIndex <= 11
    ensures date < 10 || monthIndex < 9 ==>
              r == Str(ToJsString(PadAsWritten(monthIndex + 1)) + ToJsString(PadAsWritten(date)) + IntToString(fullYear))
    ensures date >= 10 && monthIndex >= 9 ==> r == Num(monthIndex + 1 + date + fullYear)
  {
    JsPlus(JsPlus(PadAsWritten(monthIndex + 1), PadAsWritten(date)), Num(fullYear))
  }

  /** Two decimal digits: a leading zero below ten. */
  function Pad2(n: nat): (r: string)
    requires n < 100
    ensures |r| == 2 && IsDigit(r[0]) && IsDigit(r[1])
    ensures ParseNat(r) == n
  {
    ParseNatToString(n);
    if n < 10 then
      assert ParseNat("0" + NatToString(n)) == ParseNat(NatToString(n)) by {
        assert ("0" + NatToString(n))[..1] == "0";
      }
      "0" + NatToString(n)
    else
      NumeralLength(n, 2);
      NatToString(n)
  }

  /** The evidently intended `currentDateString`: month and day as two digits each, then the year. */
  function CurrentDateString(date: int, monthIndex: int, fullYear: int): (r: string)
    requires 1 <= date <= 31 && 0 <= monthIndex <= 11
    ensures |r| == 4 + |IntToString(fullYear)|
    ensures forall k :: 0 <= k < 4 ==> IsDigit(r[k])
    ensures ParseNat(r[..2]) == monthIndex + 1 && ParseNat(r[2..4]) == date
    ensures r[4..] == IntToString(fullYear)
  {
    var mm := Pad2(monthIndex + 1);
    var dd := Pad2(date);
    var r := mm + dd + IntToString(fullYear);
    assert r[..2] == mm && r[2..4] == dd;
    r
  }

  /** For a four-digit year the stamp is eight digits, MMDDYYYY. */
  lemma DateStringIsEightDigits(date: int, monthIndex: int, fullYear: int)
    requires 1 <= date <= 31 && 0 <= monthIndex <= 11 && 1000 <= fullYear <= 9999
    ensures var r := CurrentDateString(date, monthIndex, fullYear);
            |r| == 8 && (forall k :: 0 <= k < 8 ==> IsDigit(r[k])) && ParseNat(r[4..]) == fullYear
  {
    ParseNatToString(fullYear);
    assert Pow10(3) == 1000 && Pow10(4) == 10000;
    NumeralLength(fullYear, 4);
  }

  /** When the day or the month is a single digit, the formatter yields the intended stamp. */
  lemma AsWrittenAgreesWhenPadded(date: int, monthIndex: int, fullYear: int)
    requires 1 <= date <= 31 && 0 <= monthIndex <= 11
    requires date < 10 || monthIndex < 9
    ensures ToJsString(CurrentDateStringAsWritten(date, monthIndex, fullYear)) == CurrentDateString(date, monthIndex, fullYear)
  {
    TwoDigitNumeral(date);
    TwoDigitNumeral(monthIndex + 1);
  }

  /** The numeral of a two-digit number or a padded one-digit number is its two-digit form. */
  lemma TwoDigitNumeral(n: nat)
    requires 1 <= n < 100
    ensures ToJsString(PadAsWritten(n)) == Pad2(n)
  {
  }

  /**
   * When both the day and the month have two digits, `mm + dd + yyyy` adds them as numbers:
   * on 25 December 2024 the stamp is "2061" instead of "12252024".
   */
  lemma AsWrittenSumsLateDates()
    ensures CurrentDateStringAsWritten(25, 11, 2024) == Num(2061)
    ensures ToJsString(CurrentDateStringAsWritten(25, 11, 2024)) == "2061"
    ensures CurrentDateString(25, 11, 2024) == "12252024"
  {
    assert NatToString(2061) == "2061";
    assert NatToString(2024) == "2024";
    assert Pad2(12) == "12" && Pad2(25) == "25";
  }

  /** For years from 0 on, the formatter is right exactly when the day or the month is a single digit. */
  lemma AsWrittenCorrectIff(date: int, monthIndex: int, fullYear: int)
    requires 1 <= date <= 31 && 0 <= monthIndex <= 11 && 0 <= fullYear
    ensures ToJsString(CurrentDateStringAsWritten(date, monthIndex, fullYear)) == CurrentDateString(date, monthIndex, fullYear)
            <==> date < 10 || monthIndex < 9
  {
    if date < 10 || monthIndex < 9 {
      AsWrittenAgreesWhenPadded(date, monthIndex, fullYear);
    } else {
      var sum := monthIndex + 1 + date + fullYear;
      var ly := |NatToString(fullYear)|;
      BelowPowerOfLength(fullYear);
      assert sum < Pow10(ly + 2) by {
        assert Pow10(ly + 2) == 100 * Pow10(ly);
      }
      NumeralLengthAtMost(sum, ly + 2);
      assert |ToJsString(CurrentDateStringAsWritten(date, monthIndex, fullYear))| < |CurrentDateString(date, monthIndex, fullYear)|;
    }
  }
}
