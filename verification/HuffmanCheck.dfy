/** The tables of module HuffmanTables agree with each other: every entry of a decoding table is the
    symbol whose code leads there, and no code is the beginning of another one. */
module HuffmanCheck {
  import opened HuffmanTables

  /** A symbol that is stored as a signed char. */
  function Symbol(offset: int): int {
    if offset < 0 then offset + 256 else offset
  }

  /** Shifts by few bits. */
  function Left(v: nat, k: nat): nat
    requires k <= 7
  {
    if k == 0 then v else if k == 1 then v * 2 else if k == 2 then v * 4 else if k == 3 then v * 8
    else if k == 4 then v * 16 else if k == 5 then v * 32 else if k == 6 then v * 64 else v * 128
  }

  function Right(v: nat, k: nat): nat
    requires k <= 7
  {
    if k == 0 then v else if k == 1 then v / 2 else if k == 2 then v / 4 else if k == 3 then v / 8
    else if k == 4 then v / 16 else if k == 5 then v / 32 else if k == 6 then v / 64 else v / 128
  }

  /** The table entry is the symbol whose code has the prefix of the table and then the first k of
      the n bits of the index. */
  predicate IsSymbol(o: nat, i: nat, n: nat, k: int, s: int)
    requires IsTable(o) && n <= 7
  {
    && 1 <= k <= n && 0 <= s < 256
    && HtLength(s) == PrefixLength(o) + k && HtEncode(s) == Left(PrefixValue(o), k) + Right(i, n - k)
  }

  /** The table entry goes on to another table, whose prefix is that of this one and all seven bits. */
  predicate IsNext(o: nat, i: nat, e: HtState)
    requires IsTable(o)
  {
    && e.shift == -7 && e.offset > 0 && IsTable(e.offset)
    && PrefixLength(e.offset) == PrefixLength(o) + 7 && PrefixValue(e.offset) == PrefixValue(o) * 128 + i
  }

  predicate BigOk(o: nat, i: nat)
    requires IsTable(o) && o < SMALL && i < 128
  {
    var e := HtDecode(o + i);
    if e.shift > 0 then IsSymbol(o, i, 7, e.shift, Symbol(e.offset)) else IsNext(o, i, e)
  }

  predicate SmallOk(o: nat, i: nat)
    requires IsTable(o) && o >= SMALL && i < 8 && o + i < PLACES
  {
    var e := HtDecode(o + i);
    if e.shift > 0 then IsSymbol(o, i, 3, e.shift - 4, Symbol(e.offset))
    else e == HtState(-6, 0) && o == 840 && i >= 6
  }

  lemma Check0(i: nat)
    requires i < 128
    ensures BigOk(0, i)
  {}

  lemma Check128(i: nat)
    requires i < 128
    ensures BigOk(128, i)
  {}

  lemma Check256(i: nat)
    requires i < 128
    ensures BigOk(256, i)
  {}

  lemma Check384(i: nat)
    requires i < 128
    ensures BigOk(384, i)
  {}

  lemma Check512(i: nat)
    requires i < 128
    ensures BigOk(512, i)
  {}

  lemma Check640(o: nat, i: nat)
    requires 640 <= o < 680 && o % 8 == 0 && i < 8
    ensures SmallOk(o, i)
  {}

  lemma Check680(o: nat, i: nat)
    requires 680 <= o < 720 && o % 8 == 0 && i < 8
    ensures SmallOk(o, i)
  {}

  lemma Check720(o: nat, i: nat)
    requires 720 <= o < 760 && o % 8 == 0 && i < 8
    ensures SmallOk(o, i)
  {}

  lemma Check760(o: nat, i: nat)
    requires 760 <= o < 800 && o % 8 == 0 && i < 8
    ensures SmallOk(o, i)
  {}

  lemma Check800(o: nat, i: nat)
    requires 800 <= o < 840 && o % 8 == 0 && i < 8
    ensures SmallOk(o, i)
  {}

  lemma Check840(o: nat, i: nat)
    requires 840 <= o < 848 && o % 8 == 0 && i < 8
    ensures SmallOk(o, i)
  {}

  /** Every entry of the tables of eight. */
  lemma CheckSmall(o: nat, i: nat)
    requires SMALL <= o < PLACES && o % 8 == 0 && i < 8
    ensures SmallOk(o, i)
  {
    hide SmallOk;
    if o < 680 {
      Check640(o, i);
    } else if o < 720 {
      Check680(o, i);
    } else if o < 760 {
      Check720(o, i);
    } else if o < 800 {
      Check760(o, i);
    } else if o < 840 {
      Check800(o, i);
    } else {
      Check840(o, i);
    }
  }

  /** Every entry of the tables of 128. */
  lemma CheckBig(o: nat, i: nat)
    requires IsTable(o) && o < SMALL && i < 128
    ensures BigOk(o, i)
  {
    hide BigOk;
    if o == 0 {
      Check0(i);
    } else if o == 128 {
      Check128(i);
    } else if o == 256 {
      Check256(i);
    } else if o == 384 {
      Check384(i);
    } else {
      Check512(i);
    }
  }

  // ----- where the code of a symbol ends

  function Homes0(s: nat): nat {
    if s < 1 then 128 else if s < 2 then 776 else if s < 9 then 512 else if s < 10 then 832 else if s < 11 then 840
    else if s < 13 then 512 else if s < 14 then 840 else 512
  }

  function Homes16(s: nat): nat {
    if s < 22 then 512 else if s < 23 then 840 else 512
  }

  function Homes32(s: nat): nat {
    if s < 33 then 0 else if s < 37 then 128 else if s < 38 then 0 else if s < 39 then 640 else if s < 42 then 128
    else if s < 43 then 640 else if s < 44 then 128 else if s < 45 then 648
    else 0
  }

  function Homes48(s: nat): nat {
    if s < 59 then 0 else if s < 60 then 648 else if s < 61 then 664 else if s < 62 then 0 else 128
  }

  function Homes64(s: nat): nat {
    if s < 65 then 128 else 0
  }

  function Homes80(s: nat): nat {
    if s < 88 then 0 else if s < 89 then 656 else if s < 90 then 0 else if s < 91 then 656 else if s < 92 then 128
    else if s < 93 then 256 else if s < 95 then 128 else 0
  }

  function Homes96(s: nat): nat {
    if s < 97 then 664 else 0
  }

  function Homes112(s: nat): nat {
    if s < 123 then 0 else if s < 124 then 256 else if s < 127 then 128 else 512
  }

  function Homes128(s: nat): nat {
    if s < 129 then 256 else if s < 130 then 672 else if s < 132 then 256 else if s < 133 then 672
    else if s < 135 then 680 else if s < 136 then 776 else if s < 137 then 688 else if s < 139 then 776
    else if s < 142 then 784 else if s < 143 then 832 else 784
  }

  function Homes144(s: nat): nat {
    if s < 146 then 832 else if s < 147 then 688 else if s < 148 then 792 else if s < 149 then 832
    else if s < 152 then 792 else if s < 153 then 800 else if s < 154 then 256 else if s < 155 then 696
    else if s < 156 then 800 else if s < 157 then 696 else if s < 159 then 800 else 832
  }

  function Homes160(s: nat): nat {
    if s < 161 then 704 else if s < 163 then 256 else if s < 164 then 704 else if s < 165 then 712
    else if s < 167 then 808 else if s < 168 then 256 else if s < 169 then 808 else if s < 170 then 712
    else if s < 171 then 720 else if s < 172 then 384 else if s < 173 then 256 else if s < 174 then 720
    else if s < 175 then 808 else 816
  }

  function Homes176(s: nat): nat {
    if s < 178 then 256 else if s < 179 then 728 else if s < 180 then 256 else if s < 181 then 816
    else if s < 182 then 728 else if s < 184 then 816 else if s < 185 then 256 else if s < 187 then 736
    else if s < 188 then 744 else if s < 189 then 824 else if s < 190 then 744 else if s < 191 then 752 else 824
  }

  function Homes192(s: nat): nat {
    if s < 194 then 512 else if s < 196 then 256 else if s < 197 then 752 else if s < 198 then 824
    else if s < 199 then 760 else if s < 200 then 384 else if s < 206 then 512 else 384
  }

  function Homes208(s: nat): nat {
    if s < 210 then 256 else if s < 215 then 512 else if s < 216 then 384 else if s < 218 then 256 else 512
  }

  function Homes224(s: nat): nat {
    if s < 225 then 256 else if s < 226 then 384 else if s < 228 then 256 else if s < 229 then 760
    else if s < 231 then 256 else if s < 232 then 824 else if s < 234 then 768 else if s < 238 then 384
    else if s < 239 then 512 else 832
  }

  function Homes240(s: nat): nat {
    512
  }

  /** The table that has the last bits of the code of a symbol. */
  function Home(s: nat): nat
    requires s < 256
  {
    if s < 16 then Homes0(s) else if s < 32 then Homes16(s) else if s < 48 then Homes32(s)
    else if s < 64 then Homes48(s)
    else if s < 80 then Homes64(s) else if s < 96 then Homes80(s) else if s < 112 then Homes96(s)
    else if s < 128 then Homes112(s)
    else if s < 144 then Homes128(s) else if s < 160 then Homes144(s) else if s < 176 then Homes160(s)
    else if s < 192 then Homes176(s)
    else if s < 208 then Homes192(s) else if s < 224 then Homes208(s) else if s < 240 then Homes224(s) else Homes240(s)
  }

  function Width(o: nat): nat {
    if o < SMALL then 7 else 3
  }

  function Entry(o: nat, k: int, s: nat): HtState {
    HtState(if o < SMALL then k else k + 4, if s < 128 then s else s - 256)
  }

  predicate HomeOk(s: nat)
    requires s < 256
  {
    var o := Home(s);
    && IsTable(o)
    && var k := HtLength(s) - PrefixLength(o);
    && 1 <= k <= Width(o)
    && Left(PrefixValue(o), k) <= HtEncode(s) < Left(PrefixValue(o) + 1, k)
    && (HtLength(s) <= 7 ==> Left(HtEncode(s) + 1, 7 - HtLength(s)) < 127)
  }

  predicate BlockOk(s: nat, i: nat)
    requires s < 256 && HomeOk(s)
  {
    var o := Home(s);
    var k := HtLength(s) - PrefixLength(o);
    i < (if o < SMALL then 128 else 8) && HtEncode(s) == Left(PrefixValue(o), k) + Right(i, Width(o) - k)
    ==> HtDecode(o + i) == Entry(o, k, s)
  }

  lemma Home0(s: nat)
    requires 0 <= s < 16
    ensures HomeOk(s)
  {}

  lemma Home16(s: nat)
    requires 16 <= s < 32
    ensures HomeOk(s)
  {}

  lemma Home32(s: nat)
    requires 32 <= s < 48
    ensures HomeOk(s)
  {}

  lemma Home48(s: nat)
    requires 48 <= s < 64
    ensures HomeOk(s)
  {}

  lemma Home64(s: nat)
    requires 64 <= s < 80
    ensures HomeOk(s)
  {}

  lemma Home80(s: nat)
    requires 80 <= s < 96
    ensures HomeOk(s)
  {}

  lemma Home96(s: nat)
    requires 96 <= s < 112
    ensures HomeOk(s)
  {}

  lemma Home112(s: nat)
    requires 112 <= s < 128
    ensures HomeOk(s)
  {}

  lemma Home128(s: nat)
    requires 128 <= s < 144
    ensures HomeOk(s)
  {}

  lemma Home144(s: nat)
    requires 144 <= s < 160
    ensures HomeOk(s)
  {}

  lemma Home160(s: nat)
    requires 160 <= s < 176
    ensures HomeOk(s)
  {}

  lemma Home176(s: nat)
    requires 176 <= s < 192
    ensures HomeOk(s)
  {}

  lemma Home192(s: nat)
    requires 192 <= s < 208
    ensures HomeOk(s)
  {}

  lemma Home208(s: nat)
    requires 208 <= s < 224
    ensures HomeOk(s)
  {}

  lemma Home224(s: nat)
    requires 224 <= s < 240
    ensures HomeOk(s)
  {}

  lemma Home240(s: nat)
    requires 240 <= s < 256
    ensures HomeOk(s)
  {}

  lemma Block0(s: nat, i: nat)
    requires 0 <= s < 8 && HomeOk(s)
    ensures BlockOk(s, i)
  {}

  lemma Block8(s: nat, i: nat)
    requires 8 <= s < 16 && HomeOk(s)
    ensures BlockOk(s, i)
  {}

  lemma Block16(s: nat, i: nat)
    requires 16 <= s < 24 && HomeOk(s)
    ensures BlockOk(s, i)
  {}

  lemma Block24(s: nat, i: nat)
    requires 24 <= s < 32 && HomeOk(s)
    ensures BlockOk(s, i)
  {}

  lemma Block32(s: nat, i: nat)
    requires 32 <= s < 40 && HomeOk(s)
    ensures BlockOk(s, i)
  {}

  lemma Block40(s: nat, i: nat)
    requires 40 <= s < 48 && HomeOk(s)
    ensures BlockOk(s, i)
  {}

  lemma Block48(s: nat, i: nat)
    requires 48 <= s < 56 && HomeOk(s)
    ensures BlockOk(s, i)
  {}

  lemma Block56(s: nat, i: nat)
    requires 56 <= s < 64 && HomeOk(s)
    ensures BlockOk(s, i)
  {}

  lemma Block64(s: nat, i: nat)
    requires 64 <= s < 72 && HomeOk(s)
    ensures BlockOk(s, i)
  {}

  lemma Block72(s: nat, i: nat)
    requires 72 <= s < 80 && HomeOk(s)
    ensures BlockOk(s, i)
  {}

  lemma Block80(s: nat, i: nat)
    requires 80 <= s < 88 && HomeOk(s)
    ensures BlockOk(s, i)
  {}

  lemma Block88(s: nat, i: nat)
    requires 88 <= s < 96 && HomeOk(s)
    ensures BlockOk(s, i)
  {}

  lemma Block96(s: nat, i: nat)
    requires 96 <= s < 104 && HomeOk(s)
    ensures BlockOk(s, i)
  {}

  lemma Block104(s: nat, i: nat)
    requires 104 <= s < 112 && HomeOk(s)
    ensures BlockOk(s, i)
  {}

  lemma Block112(s: nat, i: nat)
    requires 112 <= s < 120 && HomeOk(s)
    ensures BlockOk(s, i)
  {}

  lemma Block120(s: nat, i: nat)
    requires 120 <= s < 128 && HomeOk(s)
    ensures BlockOk(s, i)
  {}

  lemma Block128(s: nat, i: nat)
    requires 128 <= s < 136 && HomeOk(s)
    ensures BlockOk(s, i)
  {}

  lemma Block136(s: nat, i: nat)
    requires 136 <= s < 144 && HomeOk(s)
    ensures BlockOk(s, i)
  {}

  lemma Block144(s: nat, i: nat)
    requires 144 <= s < 152 && HomeOk(s)
    ensures BlockOk(s, i)
  {}

  lemma Block152(s: nat, i: nat)
    requires 152 <= s < 160 && HomeOk(s)
    ensures BlockOk(s, i)
  {}

  lemma Block160(s: nat, i: nat)
    requires 160 <= s < 168 && HomeOk(s)
    ensures BlockOk(s, i)
  {}

  lemma Block168(s: nat, i: nat)
    requires 168 <= s < 176 && HomeOk(s)
    ensures BlockOk(s, i)
  {}

  lemma Block176(s: nat, i: nat)
    requires 176 <= s < 184 && HomeOk(s)
    ensures BlockOk(s, i)
  {}

  lemma Block184(s: nat, i: nat)
    requires 184 <= s < 192 && HomeOk(s)
    ensures BlockOk(s, i)
  {}

  lemma Block192(s: nat, i: nat)
    requires 192 <= s < 200 && HomeOk(s)
    ensures BlockOk(s, i)
  {}

  lemma Block200(s: nat, i: nat)
    requires 200 <= s < 208 && HomeOk(s)
    ensures BlockOk(s, i)
  {}

  lemma Block208(s: nat, i: nat)
    requires 208 <= s < 216 && HomeOk(s)
    ensures BlockOk(s, i)
  {}

  lemma Block216(s: nat, i: nat)
    requires 216 <= s < 224 && HomeOk(s)
    ensures BlockOk(s, i)
  {}

  lemma Block224(s: nat, i: nat)
    requires 224 <= s < 232 && HomeOk(s)
    ensures BlockOk(s, i)
  {}

  lemma Block232(s: nat, i: nat)
    requires 232 <= s < 240 && HomeOk(s)
    ensures BlockOk(s, i)
  {}

  lemma Block240(s: nat, i: nat)
    requires 240 <= s < 248 && HomeOk(s)
    ensures BlockOk(s, i)
  {}

  lemma Block248(s: nat, i: nat)
    requires 248 <= s < 256 && HomeOk(s)
    ensures BlockOk(s, i)
  {}

  /** The code of every symbol has the prefix of its table, and is not the beginning of a padding. */
  lemma CheckHome(s: nat)
    requires s < 256
    ensures HomeOk(s)
  {
    hide HomeOk;
    if s < 16 {
      Home0(s);
    } else if s < 32 {
      Home16(s);
    } else if s < 48 {
      Home32(s);
    } else if s < 64 {
      Home48(s);
    } else if s < 80 {
      Home64(s);
    } else if s < 96 {
      Home80(s);
    } else if s < 112 {
      Home96(s);
    } else if s < 128 {
      Home112(s);
    } else if s < 144 {
      Home128(s);
    } else if s < 160 {
      Home144(s);
    } else if s < 176 {
      Home160(s);
    } else if s < 192 {
      Home176(s);
    } else if s < 208 {
      Home192(s);
    } else if s < 224 {
      Home208(s);
    } else if s < 240 {
      Home224(s);
    } else {
      Home240(s);
    }
  }

  /** All entries of that table that begin with the rest of the code are the symbol. */
  lemma CheckBlock(s: nat, i: nat)
    requires s < 256 && HomeOk(s)
    ensures BlockOk(s, i)
  {
    hide HomeOk;
    hide BlockOk;
    if s < 8 {
      Block0(s, i);
    } else if s < 16 {
      Block8(s, i);
    } else if s < 24 {
      Block16(s, i);
    } else if s < 32 {
      Block24(s, i);
    } else if s < 40 {
      Block32(s, i);
    } else if s < 48 {
      Block40(s, i);
    } else if s < 56 {
      Block48(s, i);
    } else if s < 64 {
      Block56(s, i);
    } else if s < 72 {
      Block64(s, i);
    } else if s < 80 {
      Block72(s, i);
    } else if s < 88 {
      Block80(s, i);
    } else if s < 96 {
      Block88(s, i);
    } else if s < 104 {
      Block96(s, i);
    } else if s < 112 {
      Block104(s, i);
    } else if s < 120 {
      Block112(s, i);
    } else if s < 128 {
      Block120(s, i);
    } else if s < 136 {
      Block128(s, i);
    } else if s < 144 {
      Block136(s, i);
    } else if s < 152 {
      Block144(s, i);
    } else if s < 160 {
      Block152(s, i);
    } else if s < 168 {
      Block160(s, i);
    } else if s < 176 {
      Block168(s, i);
    } else if s < 184 {
      Block176(s, i);
    } else if s < 192 {
      Block184(s, i);
    } else if s < 200 {
      Block192(s, i);
    } else if s < 208 {
      Block200(s, i);
    } else if s < 216 {
      Block208(s, i);
    } else if s < 224 {
      Block216(s, i);
    } else if s < 232 {
      Block224(s, i);
    } else if s < 240 {
      Block232(s, i);
    } else if s < 248 {
      Block240(s, i);
    } else {
      Block248(s, i);
    }
  }

}
