/** The file menu of the flash loader: the list of `.bin` images on the SD card, the
    selected entry, and the wrap-around of the selection when the list is navigated. */
module Menu {
  import opened Common

  /** `ends_with(value, ending)`: `ending` is compared with the tail of `value` from the
      back, one character at a time, after ruling out an ending longer than the value. */
  function EndsWith(value: seq<byte>, ending: seq<byte>): bool
  {
    |ending| <= |value| && EqualFromBack(value, ending, |ending|)
  }

  /** The last `k` bytes of `ending` equal the last `k` bytes of `value`, compared from
      the back as `std::equal` on reverse iterators does. */
  function EqualFromBack(value: seq<byte>, ending: seq<byte>, k: nat): bool
    requires k <= |ending| <= |value|
  {
    k == 0
    || (ending[|ending| - k] == value[|value| - k] && EqualFromBack(value, ending, k - 1))
  }

  lemma {:induction false} EqualFromBackTail(value: seq<byte>, ending: seq<byte>, k: nat)
    requires k <= |ending| <= |value|
    ensures EqualFromBack(value, ending, k) <==> ending[|ending| - k..] == value[|value| - k..]
  {
    if k > 0 {
      EqualFromBackTail(value, ending, k - 1);
      assert ending[|ending| - k..] == [ending[|ending| - k]] + ending[|ending| - (k - 1)..];
      assert value[|value| - k..] == [value[|value| - k]] + value[|value| - (k - 1)..];
    }
  }

  /** `ends_with` holds exactly when `ending` is a suffix of `value`; an ending longer
      than the value is never one. */
  lemma EndsWithSuffix(value: seq<byte>, ending: seq<byte>)
    ensures EndsWith(value, ending) <==> |ending| <= |value| && value[|value| - |ending|..] == ending
  {
    if |ending| <= |value| {
      EqualFromBackTail(value, ending, |ending|);
      assert ending[0..] == ending;
    }
  }

  /** ".bin". */
  const BinExtension: seq<byte> := [0x2E, 0x62, 0x69, 0x6E]

  /** An entry of the directory listing. Its other members, and the ordering `sort`
      uses, are declared outside this file. */
  datatype FileInfo = FileInfo(name: Path)

  predicate IsBin(f: FileInfo)
  {
    EndsWith(f.name, BinExtension)
  }

  /** The entries of `listing` whose name ends in ".bin", in listing order. */
  function BinFiles(listing: seq<FileInfo>): seq<FileInfo>
  {
    if listing == [] then []
    else
      var last := listing[|listing| - 1];
      BinFiles(listing[..|listing| - 1]) + (if IsBin(last) then [last] else [])
  }

  /** The list keeps exactly the `.bin` entries of the listing: every one it holds is a
      `.bin` entry of the listing, and every `.bin` entry of the listing is in it. */
  lemma {:induction false} BinFilesMembers(listing: seq<FileInfo>, f: FileInfo)
    ensures f in BinFiles(listing) <==> f in listing && IsBin(f)
  {
    if listing != [] {
      var init := listing[..|listing| - 1];
      BinFilesMembers(init, f);
      assert listing == init + [listing[|listing| - 1]];
    }
  }

  /** Every name the list holds ends in ".bin". */
  lemma BinFilesNames(listing: seq<FileInfo>)
    ensures forall i :: 0 <= i < |BinFiles(listing)| ==> |BinExtension| <= |BinFiles(listing)[i].name|
    ensures forall i :: 0 <= i < |BinFiles(listing)|
              ==> var n := BinFiles(listing)[i].name; n[|n| - |BinExtension|..] == BinExtension
  {
    var files := BinFiles(listing);
    forall i | 0 <= i < |files|
      ensures |BinExtension| <= |files[i].name|
      ensures files[i].name[|files[i].name| - |BinExtension|..] == BinExtension
    {
      BinFileName(listing, files[i]);
    }
  }

  /** A name the list holds ends in ".bin". */
  lemma BinFileName(listing: seq<FileInfo>, f: FileInfo)
    requires f in BinFiles(listing)
    ensures |BinExtension| <= |f.name| && f.name[|f.name| - |BinExtension|..] == BinExtension
  {
    BinFilesMembers(listing, f);
    EndsWithSuffix(f.name, BinExtension);
  }

  /** The index of the last entry of `files` named `name`, or -1 when there is none. */
  function LastMatch(files: seq<FileInfo>, name: Path): (r: int)
    ensures -1 <= r < |files|
    ensures r >= 0 ==> files[r].name == name
    ensures forall j :: r < j < |files| ==> files[j].name != name
  {
    if files == [] then -1
    else if files[|files| - 1].name == name then |files| - 1
    else LastMatch(files[..|files| - 1], name)
  }

  /** The 32-bit signed range of `int32_t`. */
  predicate IsInt32(x: int)
  {
    -0x8000_0000 <= x < 0x8000_0000
  }

  function Abs(x: int): nat
  {
    if x < 0 then -x else x
  }

  /** C's `x % n`: the remainder of division truncated toward zero, which takes the sign
      of `x` and differs from `x` by a multiple of `n`. */
  function CRem(x: int, n: int): (r: int)
    requires n != 0
    ensures Abs(r) < Abs(n) && (r == 0 || (r < 0 <==> x < 0))
    ensures (x - r) % Abs(n) == 0
  {
    var a := Abs(n);
    if x >= 0 then
      UniqueRemainder(x - x % a, a, 0, x / a);
      x % a
    else
      UniqueRemainder(x + (-x) % a, a, 0, -((-x) / a));
      -((-x) % a)
  }

  /** `modulo(x, n)`, for the `n` it is called with: positive, and small enough that
      `x % n + n` cannot overflow. */
  function Modulo(x: int, n: int): int
    requires IsInt32(x) && 0 < n <= 0x4000_0000
  {
    CRem(CRem(x, n) + n, n)
  }

  /** `modulo(x, n)` is the non-negative remainder: it lies in `[0, n)` and differs from
      `x` by a multiple of `n`. */
  lemma ModuloIsRemainder(x: int, n: int)
    requires IsInt32(x) && 0 < n <= 0x4000_0000
    ensures 0 <= Modulo(x, n) < n && Modulo(x, n) == x % n
  {
    if x >= 0 {
      var r := x % n;
      UniqueRemainder(r + n, n, r, 1);
    } else {
      var q, k := (-x) / n, (-x) % n;
      assert -x == q * n + k;
      if k == 0 {
        UniqueRemainder(n, n, 0, 1);
        assert x == 0 + (-q) * n;
        UniqueRemainder(x, n, 0, -q);
      } else {
        UniqueRemainder(n - k, n, n - k, 0);
        assert (-q - 1) * n == -(q * n) - n;
        UniqueRemainder(x, n, n - k, -q - 1);
      }
    }
  }

  /** A value in `[0, n)` that differs from `x` by a multiple of `n` is `x % n`. */
  lemma UniqueRemainder(x: int, n: int, m: int, q: int)
    requires 0 < n && 0 <= m < n && x == m + q * n
    ensures m == x % n
  {
    var q', m' := x / n, x % n;
    assert x == q' * n + m';
    if q < q' {
      MulAtLeast(q' - q, n);
    } else if q > q' {
      MulAtLeast(q - q', n);
    }
  }

  lemma MulAtLeast(a: int, n: int)
    requires a >= 1 && n > 0
    ensures a * n >= n
  {
    assert a * n == (a - 1) * n + n;
  }

  datatype Option<T> = None | Some(value: T)

  /** The wrap-around in `update` as written: `modulo(selected, file_count)` whatever the
      file count, so with no `.bin` file on the card it divides by zero, which C leaves
      undefined (`None`). */
  function WrapAsWritten(selected: int, count: nat): Option<int>
    requires IsInt32(selected) && count <= 0x4000_0000
  {
    if count == 0 then None else Some(Modulo(selected, count))
  }

  /** With no `.bin` file on the card the wrap-around as written has no defined result,
      whatever entry was selected. */
  lemma EmptyListWrapUndefined(selected: int)
    requires IsInt32(selected)
    ensures WrapAsWritten(selected, 0) == None
  {
  }

  /** The wrap-around as evidently intended: on an empty list the selection is 0,
      otherwise `modulo(selected, count)`. */
  function Wrap(selected: int, count: nat): int
    requires IsInt32(selected) && count <= 0x4000_0000
  {
    if count == 0 then 0 else Modulo(selected, count)
  }

  /** The corrected wrap-around always gives a selection: an index of the list when it is
      not empty, and otherwise the remainder of the selection modulo the count. */
  lemma WrapSelects(selected: int, count: nat)
    requires IsInt32(selected) && count <= 0x4000_0000
    ensures count == 0 ==> Wrap(selected, count) == 0
    ensures count > 0 ==> 0 <= Wrap(selected, count) < count && Wrap(selected, count) == selected % count
    ensures count > 0 ==> WrapAsWritten(selected, count) == Some(Wrap(selected, count))
  {
    if count > 0 {
      ModuloIsRemainder(selected, count);
    }
  }

  /** The file list and `persist.selected_menu_item`. */
  class FileMenu {
    var files: seq<FileInfo>
    var selected: int

    constructor(selected: int)
      ensures files == [] && this.selected == selected
    {
      files, this.selected := [], selected;
    }

    /** `load_file_list`, given what `list_files("")` returned: clear the list, then
        append every entry whose name ends in ".bin". */
    method LoadFileList(listing: seq<FileInfo>)
      modifies this`files
      ensures files == BinFiles(listing)
    {
      files := [];
      for i := 0 to |listing|
        invariant files == BinFiles(listing[..i])
      {
        assert listing[..i + 1][..i] == listing[..i];
        if EndsWith(listing[i].name, BinExtension) {
          files := files + [listing[i]];
        }
      }
      assert listing[..|listing|] == listing;
    }

    /** `select_file(filename)`: select the last entry with that name; with none, leave
        the selection as it was. */
    method SelectFile(name: Path)
      modifies this`selected
      ensures var k := LastMatch(files, name);
              selected == if k < 0 then old(selected) else k
    {
      for i := 0 to |files|
        invariant var k := LastMatch(files[..i], name);
                  selected == if k < 0 then old(selected) else k
      {
        assert files[..i + 1][..i] == files[..i];
        if files[i].name == name {
          selected := i;
        }
      }
      assert files[..|files|] == files;
    }

    /** The selection part of `update`: step up or down, then wrap around the list. */
    method Navigate(up: bool, down: bool)
      requires IsInt32(selected) && |files| <= 0x4000_0000
      requires up ==> selected != -0x8000_0000
      requires down ==> selected != 0x7FFF_FFFF
      modifies this`selected
      ensures var moved := old(selected) - (if up then 1 else 0) + (if down then 1 else 0);
              selected == Wrap(moved, |files|)
    {
      if up {
        selected := selected - 1;
      }
      if down {
        selected := selected + 1;
      }
      selected := Wrap(selected, |files|);
    }
  }
}
