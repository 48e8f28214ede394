/**
 Well-formed UTF-8 byte sequences, following the syntax of section 4 of
 RFC 3629, which is what `std::str::from_utf8` accepts.
 */
module Utf8 {
  import opened RunLength

  /** `UTF8-tail = %x80-BF`. */
  predicate IsTail(b: Byte)
  {
    0x80 <= b <= 0xBF
  }

  /**
   Length of the well-formed character at the front of `bs`, or 0 when `bs`
   does not start with one:
     UTF8-1 = %x00-7F
     UTF8-2 = %xC2-DF UTF8-tail
     UTF8-3 = %xE0 %xA0-BF UTF8-tail / %xE1-EC 2( UTF8-tail ) /
              %xED %x80-9F UTF8-tail / %xEE-EF 2( UTF8-tail )
     UTF8-4 = %xF0 %x90-BF 2( UTF8-tail ) / %xF1-F3 3( UTF8-tail ) /
              %xF4 %x80-8F 2( UTF8-tail )
   */
  function LeadCharLength(bs: seq<Byte>): nat
  {
    if bs == [] then 0
    else
      var b0 := bs[0];
      if b0 <= 0x7F then 1
      else if 0xC2 <= b0 <= 0xDF then
        if |bs| >= 2 && IsTail(bs[1]) then 2 else 0
      else if 0xE0 <= b0 <= 0xEF then
        var lo := if b0 == 0xE0 then 0xA0 else 0x80;
        var hi := if b0 == 0xED then 0x9F else 0xBF;
        if |bs| >= 3 && lo <= bs[1] <= hi && IsTail(bs[2]) then 3 else 0
      else if 0xF0 <= b0 <= 0xF4 then
        var lo := if b0 == 0xF0 then 0x90 else 0x80;
        var hi := if b0 == 0xF4 then 0x8F else 0xBF;
        if |bs| >= 4 && lo <= bs[1] <= hi && IsTail(bs[2]) && IsTail(bs[3]) then 4 else 0
      else 0
  }

  /** `UTF8-octets = *( UTF8-char )`: the bytes split into well-formed characters. */
  predicate WellFormed(bs: seq<Byte>)
    decreases |bs|
  {
    bs == [] || (LeadCharLength(bs) > 0 && LeadCharLength(bs) <= |bs| && WellFormed(bs[LeadCharLength(bs)..]))
  }
}
