/** Names of rotated log files. */
module FileNames {
  import opened Decimal

  /** The last position of c in s, or -1. */
  function RFind(s: string, c: char): (k: int)
    ensures -1 <= k < |s|
    ensures k >= 0 ==> s[k] == c
    ensures forall i :: k < i < |s| ==> s[i] != c
  {
    if s == [] then -1
    else if s[|s| - 1] == c then |s| - 1
    else RFind(s[..|s| - 1], c)
  }

  /** The file path and its extension; the dot of a hidden file starts none. */
  function SplitByExtension(name: string, folderSep: char): (r: (string, string))
    ensures r.0 + r.1 == name
    ensures r.1 != "" ==> r.0 != "" && |r.1| > 1
  {
    var ext := RFind(name, '.');
    if ext == -1 || ext == 0 || ext == |name| - 1 then (name, "")
    else
      var folder := RFind(name, folderSep);
      if folder != -1 && folder >= ext - 1 then (name, "")
      else (name[..ext], name[ext..])
  }

  /** The position where an extension starts: the last dot, with something after
      it and, between it and the last folder separator, something before it. */
  predicate ExtensionAt(name: string, folderSep: char, k: int) {
    && 0 < k < |name| - 1 && name[k] == '.'
    && (forall i :: k < i < |name| ==> name[i] != '.')
    && (forall i :: k - 1 <= i < |name| ==> name[i] != folderSep)
  }

  /** There is an extension exactly when some position qualifies, and it starts there. */
  lemma SplitIsLastExtension(name: string, folderSep: char)
    ensures forall k :: ExtensionAt(name, folderSep, k) ==>
                          SplitByExtension(name, folderSep) == (name[..k], name[k..])
    ensures SplitByExtension(name, folderSep).1 != "" ==>
              ExtensionAt(name, folderSep, |SplitByExtension(name, folderSep).0|)
  {
    var ext, folder := RFind(name, '.'), RFind(name, folderSep);
    forall k | ExtensionAt(name, folderSep, k)
      ensures SplitByExtension(name, folderSep) == (name[..k], name[k..])
    {
      assert ext == k;
      assert folder < k - 1;
    }
  }

  /** "logs/mylog.txt", 3 gives "logs/mylog.3.txt". */
  function CalcFilename(name: string, index: nat, folderSep: char): string {
    if index == 0 then name
    else
      var (base, ext) := SplitByExtension(name, folderSep);
      base + "." + Dec(index) + ext
  }

  /** Between the file path and its extension there is a dot and the numeral of the index;
      there is nothing for index 0. */
  lemma IndexReadsBack(name: string, index: nat, folderSep: char)
    ensures var (base, ext) := SplitByExtension(name, folderSep);
            var file := CalcFilename(name, index, folderSep);
            if index == 0 then file == base + ext
            else
              && |base| + 1 + |ext| < |file|
              && file[..|base|] == base && file[|base|] == '.' && file[|file| - |ext|..] == ext
              && var numeral := file[|base| + 1..|file| - |ext|];
                 AllDigits(numeral) && Val(numeral) == index && numeral[0] != '0'
  {
    var (base, ext) := SplitByExtension(name, folderSep);
    hide Dec, Val, SplitByExtension;
    if index != 0 {
      FourParts(base, Dec(index), ext);
      ValDec(index);
      DecLeading(index);
    }
  }

  lemma FourParts(a: string, b: string, c: string)
    ensures var s := a + "." + b + c;
            && |s| == |a| + 1 + |b| + |c| && s[..|a|] == a && s[|a|] == '.'
            && s[|a| + 1..|s| - |c|] == b && s[|s| - |c|..] == c
  {
  }

  /** Different indices never give the same name. */
  lemma CalcFilenameInjective(name: string, i: nat, j: nat, folderSep: char)
    requires CalcFilename(name, i, folderSep) == CalcFilename(name, j, folderSep)
    ensures i == j
  {
    var (base, ext) := SplitByExtension(name, folderSep);
    if i != 0 && j != 0 {
      var x, y := base + "." + Dec(i) + ext, base + "." + Dec(j) + ext;
      assert |Dec(i)| == |Dec(j)|;
      Middle(base + ".", Dec(i), ext);
      Middle(base + ".", Dec(j), ext);
      DecInjective(i, j);
    }
  }

  lemma Middle(a: string, b: string, c: string)
    ensures (a + b + c)[|a|..|a| + |b|] == b
  {
  }
}
