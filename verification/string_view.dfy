/**
  `StringView` (util/string_view.hpp): a pointer into character memory and a
  size, not NUL-terminated.

  The memory the pointer points into is `mem`, the pointer is the offset
  `start` into it.  Nothing in the class checks bounds: a view is `Valid`
  when its characters lie inside `mem`, and reading outside is undefined
  behaviour, so `At` requires a valid view and an index below its size.
 */
module StringViews {

  datatype StringView = StringView(mem: seq<char>, start: nat, size: nat)
  {
    /** The characters the view covers exist. */
    predicate Valid()
    {
      start + size <= |mem|
    }

    /** The characters the view covers. */
    function Chars(): (s: seq<char>)
      requires Valid()
      ensures |s| == size
    {
      mem[start..start + size]
    }
  }

  /** `StringView(start, size)`. */
  function FromPointer(mem: seq<char>, start: nat, size: nat): (v: StringView)
    requires start + size <= |mem|
    ensures v.Valid() && v.Chars() == mem[start..start + size]
  {
    StringView(mem, start, size)
  }

  /**
    `StringView(literal)`: a string literal of array type `char[SIZE]` ends
    with its NUL terminator, which the view leaves out.
   */
  function FromLiteral(literal: seq<char>): (v: StringView)
    requires |literal| >= 1
    ensures v.Valid() && v.size == |literal| - 1
    ensures literal == v.Chars() + [literal[|literal| - 1]]
  {
    StringView(literal, 0, |literal| - 1)
  }

  /** `StringView()`: a null pointer and size 0 - an empty view. */
  function Default(): (v: StringView)
    ensures v.Valid() && v.Chars() == []
  {
    StringView([], 0, 0)
  }

  /** `operator[](index)`: the character `index` places after the start. */
  function At(v: StringView, index: nat): (c: char)
    requires v.Valid() && index < v.size
    ensures c == v.Chars()[index]
  {
    v.mem[v.start + index]
  }

  /** `get_size()`. */
  function GetSize(v: StringView): (n: nat)
    requires v.Valid()
    ensures n == |v.Chars()|
  {
    v.size
  }

  /**
    `substring(start, size)`: the view moved forward by `start` with the
    given size.  No bound is checked: the result covers the requested part
    of the original view only when `start + size` stays within it.
   */
  function Substring(v: StringView, start: nat, size: nat): (r: StringView)
    ensures r.mem == v.mem && r.size == size
    ensures v.Valid() && start + size <= v.size ==>
              r.Valid() && r.Chars() == v.Chars()[start..start + size]
  {
    StringView(v.mem, v.start + start, size)
  }

  /** Taking a substring of a substring is one substring with the offsets added. */
  lemma {:induction false} SubstringOfSubstring(v: StringView, a: nat, n: nat, b: nat, m: nat)
    requires v.Valid() && a + n <= v.size && b + m <= n
    ensures Substring(Substring(v, a, n), b, m) == Substring(v, a + b, m)
    ensures Substring(v, a + b, m).Chars() == v.Chars()[a..a + n][b..b + m]
  {
  }
}
