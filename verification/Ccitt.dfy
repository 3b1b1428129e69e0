/** The one CRC table of the program, for the polynomial 0xEDB88320: src/crc.cpp:34-39. */
module Ccitt {
  import opened BitWords
  import opened Crc32
  import opened Crc32Window
  import Crc32Period

  function Polynomial(): Word { Crc32Period.List(0xEDB88320) }

  /** The wrap-around of exponents that CRCExp8 relies on is true of this polynomial. */
  lemma CcittWraps()
    ensures Wraps(Polynomial())
  {
    Crc32Period.PeriodHolds();
  }

  method CcittTable() returns (t: Tables)
    ensures t.polynom == Polynomial() && Valid(t) && Wraps(t.polynom)
  {
    t := BuildTables(Polynomial());
    CcittWraps();
  }
}
