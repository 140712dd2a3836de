/** The Huffman tables of the JPEG encoder (jpeg.c): the code and length tables that it
    writes with, the node counts and values that it puts into the file, and the decoder's
    procedure of ITU-T T.81, which finds every symbol written. */
module Huffman {
  import opened Arith
  import opened Bits
  import opened BitStrings

  // jpec_dc_nodes and jpec_ac_nodes: how many codes have n bits.

  function DcNodes(n: nat): nat {
    match n
    case 0 => 0 case 1 => 0 case 2 => 1 case 3 => 5 case 4 => 1 case 5 => 1 case 6 => 1 case 7 => 1
    case 8 => 1 case 9 => 1 case 10 => 0 case 11 => 0 case 12 => 0 case 13 => 0 case 14 => 0 case 15 => 0
    case 16 => 0 case _ => 0
  }

  function AcNodes(n: nat): nat {
    match n
    case 0 => 0 case 1 => 0 case 2 => 2 case 3 => 1 case 4 => 3 case 5 => 3 case 6 => 2 case 7 => 4
    case 8 => 3 case 9 => 5 case 10 => 5 case 11 => 4 case 12 => 4 case 13 => 0 case 14 => 0 case 15 => 1
    case 16 => 125 case _ => 0
  }

  // jpec_dc_vals and jpec_ac_vals: the symbols in the order of their codes.

  function DcVal(k: nat): nat { k }

  function AcVal0(i: nat): nat {
    match i
    case 0 => 1 case 1 => 2 case 2 => 3 case 3 => 0 case 4 => 4 case 5 => 17 case 6 => 5 case 7 => 18
    case 8 => 33 case 9 => 49 case 10 => 65 case 11 => 6 case 12 => 19 case 13 => 81 case 14 => 97 case _ => 7
  }

  function AcVal1(i: nat): nat {
    match i
    case 0 => 34 case 1 => 113 case 2 => 20 case 3 => 50 case 4 => 129 case 5 => 145 case 6 => 161 case 7 => 8
    case 8 => 35 case 9 => 66 case 10 => 177 case 11 => 193 case 12 => 21 case 13 => 82 case 14 => 209 case _ => 240
  }

  function AcVal2(i: nat): nat {
    match i
    case 0 => 36 case 1 => 51 case 2 => 98 case 3 => 114 case 4 => 130 case 5 => 9 case 6 => 10 case 7 => 22
    case 8 => 23 case 9 => 24 case 10 => 25 case 11 => 26 case 12 => 37 case 13 => 38 case 14 => 39 case _ => 40
  }

  function AcVal3(i: nat): nat {
    match i
    case 0 => 41 case 1 => 42 case 2 => 52 case 3 => 53 case 4 => 54 case 5 => 55 case 6 => 56 case 7 => 57
    case 8 => 58 case 9 => 67 case 10 => 68 case 11 => 69 case 12 => 70 case 13 => 71 case 14 => 72 case _ => 73
  }

  function AcVal4(i: nat): nat {
    match i
    case 0 => 74 case 1 => 83 case 2 => 84 case 3 => 85 case 4 => 86 case 5 => 87 case 6 => 88 case 7 => 89
    case 8 => 90 case 9 => 99 case 10 => 100 case 11 => 101 case 12 => 102 case 13 => 103 case 14 => 104 case _ => 105
  }

  function AcVal5(i: nat): nat {
    match i
    case 0 => 106 case 1 => 115 case 2 => 116 case 3 => 117 case 4 => 118 case 5 => 119 case 6 => 120 case 7 => 121
    case 8 => 122 case 9 => 131 case 10 => 132 case 11 => 133 case 12 => 134 case 13 => 135 case 14 => 136 case _ => 137
  }

  function AcVal6(i: nat): nat {
    match i
    case 0 => 138 case 1 => 146 case 2 => 147 case 3 => 148 case 4 => 149 case 5 => 150 case 6 => 151 case 7 => 152
    case 8 => 153 case 9 => 154 case 10 => 162 case 11 => 163 case 12 => 164 case 13 => 165 case 14 => 166 case _ => 167
  }

  function AcVal7(i: nat): nat {
    match i
    case 0 => 168 case 1 => 169 case 2 => 170 case 3 => 178 case 4 => 179 case 5 => 180 case 6 => 181 case 7 => 182
    case 8 => 183 case 9 => 184 case 10 => 185 case 11 => 186 case 12 => 194 case 13 => 195 case 14 => 196 case _ => 197
  }

  function AcVal8(i: nat): nat {
    match i
    case 0 => 198 case 1 => 199 case 2 => 200 case 3 => 201 case 4 => 202 case 5 => 210 case 6 => 211 case 7 => 212
    case 8 => 213 case 9 => 214 case 10 => 215 case 11 => 216 case 12 => 217 case 13 => 218 case 14 => 225 case _ => 226
  }

  function AcVal9(i: nat): nat {
    match i
    case 0 => 227 case 1 => 228 case 2 => 229 case 3 => 230 case 4 => 231 case 5 => 232 case 6 => 233 case 7 => 234
    case 8 => 241 case 9 => 242 case 10 => 243 case 11 => 244 case 12 => 245 case 13 => 246 case 14 => 247 case _ => 248
  }

  function AcValA(i: nat): nat {
    match i
    case 0 => 249 case _ => 250
  }

  function AcVal(k: nat): nat {
    match k / 16
    case 0 => AcVal0(k % 16) case 1 => AcVal1(k % 16) case 2 => AcVal2(k % 16) case 3 => AcVal3(k % 16)
    case 4 => AcVal4(k % 16) case 5 => AcVal5(k % 16) case 6 => AcVal6(k % 16) case 7 => AcVal7(k % 16)
    case 8 => AcVal8(k % 16) case 9 => AcVal9(k % 16) case _ => AcValA(k % 16)
  }

  // jpec_dc_code and jpec_dc_len

  function DcCode(t: nat): nat {
    match t
    case 0 => 0 case 1 => 2 case 2 => 3 case 3 => 4 case 4 => 5 case 5 => 6 case 6 => 14 case 7 => 30
    case 8 => 62 case 9 => 126 case 10 => 254 case _ => 510
  }

  function DcLen(t: nat): nat {
    match t
    case 0 => 2 case 1 => 3 case 2 => 3 case 3 => 3 case 4 => 3 case 5 => 3 case 6 => 4 case 7 => 5
    case 8 => 6 case 9 => 7 case 10 => 8 case _ => 9
  }

  // jpec_ac_code, a row for each run of zeros, and jpec_ac_len

  function AcCode0(s: nat): nat {
    match s
    case 0 => 10 case 1 => 0 case 2 => 1 case 3 => 4 case 4 => 11 case 5 => 26 case 6 => 120 case 7 => 248
    case 8 => 1014 case 9 => 65410 case 10 => 65411 case 11 => 0 case 12 => 0 case 13 => 0 case 14 => 0 case _ => 0
  }

  function AcCode1(s: nat): nat {
    match s
    case 0 => 0 case 1 => 12 case 2 => 27 case 3 => 121 case 4 => 502 case 5 => 2038 case 6 => 65412 case 7 => 65413
    case 8 => 65414 case 9 => 65415 case 10 => 65416 case 11 => 0 case 12 => 0 case 13 => 0 case 14 => 0 case _ => 0
  }

  function AcCode2(s: nat): nat {
    match s
    case 0 => 0 case 1 => 28 case 2 => 249 case 3 => 1015 case 4 => 4084 case 5 => 65417 case 6 => 65418 case 7 => 65419
    case 8 => 65420 case 9 => 65421 case 10 => 65422 case 11 => 0 case 12 => 0 case 13 => 0 case 14 => 0 case _ => 0
  }

  function AcCode3(s: nat): nat {
    match s
    case 0 => 0 case 1 => 58 case 2 => 503 case 3 => 4085
    case 4 => 65423 case 5 => 65424 case 6 => 65425 case 7 => 65426
    case 8 => 65427 case 9 => 65428 case 10 => 65429 case 11 => 0 case 12 => 0 case 13 => 0 case 14 => 0 case _ => 0
  }

  function AcCode4(s: nat): nat {
    match s
    case 0 => 0 case 1 => 59 case 2 => 1016 case 3 => 65430
    case 4 => 65431 case 5 => 65432 case 6 => 65433 case 7 => 65434
    case 8 => 65435 case 9 => 65436 case 10 => 65437 case 11 => 0 case 12 => 0 case 13 => 0 case 14 => 0 case _ => 0
  }

  function AcCode5(s: nat): nat {
    match s
    case 0 => 0 case 1 => 122 case 2 => 2039 case 3 => 65438
    case 4 => 65439 case 5 => 65440 case 6 => 65441 case 7 => 65442
    case 8 => 65443 case 9 => 65444 case 10 => 65445 case 11 => 0 case 12 => 0 case 13 => 0 case 14 => 0 case _ => 0
  }

  function AcCode6(s: nat): nat {
    match s
    case 0 => 0 case 1 => 123 case 2 => 4086 case 3 => 65446
    case 4 => 65447 case 5 => 65448 case 6 => 65449 case 7 => 65450
    case 8 => 65451 case 9 => 65452 case 10 => 65453 case 11 => 0 case 12 => 0 case 13 => 0 case 14 => 0 case _ => 0
  }

  function AcCode7(s: nat): nat {
    match s
    case 0 => 0 case 1 => 250 case 2 => 4087 case 3 => 65454
    case 4 => 65455 case 5 => 65456 case 6 => 65457 case 7 => 65458
    case 8 => 65459 case 9 => 65460 case 10 => 65461 case 11 => 0 case 12 => 0 case 13 => 0 case 14 => 0 case _ => 0
  }

  function AcCode8(s: nat): nat {
    match s
    case 0 => 0 case 1 => 504 case 2 => 32704 case 3 => 65462
    case 4 => 65463 case 5 => 65464 case 6 => 65465 case 7 => 65466
    case 8 => 65467 case 9 => 65468 case 10 => 65469 case 11 => 0 case 12 => 0 case 13 => 0 case 14 => 0 case _ => 0
  }

  function AcCode9(s: nat): nat {
    match s
    case 0 => 0 case 1 => 505 case 2 => 65470 case 3 => 65471
    case 4 => 65472 case 5 => 65473 case 6 => 65474 case 7 => 65475
    case 8 => 65476 case 9 => 65477 case 10 => 65478 case 11 => 0 case 12 => 0 case 13 => 0 case 14 => 0 case _ => 0
  }

  function AcCodeA(s: nat): nat {
    match s
    case 0 => 0 case 1 => 506 case 2 => 65479 case 3 => 65480
    case 4 => 65481 case 5 => 65482 case 6 => 65483 case 7 => 65484
    case 8 => 65485 case 9 => 65486 case 10 => 65487 case 11 => 0 case 12 => 0 case 13 => 0 case 14 => 0 case _ => 0
  }

  function AcCodeB(s: nat): nat {
    match s
    case 0 => 0 case 1 => 1017 case 2 => 65488 case 3 => 65489
    case 4 => 65490 case 5 => 65491 case 6 => 65492 case 7 => 65493
    case 8 => 65494 case 9 => 65495 case 10 => 65496 case 11 => 0 case 12 => 0 case 13 => 0 case 14 => 0 case _ => 0
  }

  function AcCodeC(s: nat): nat {
    match s
    case 0 => 0 case 1 => 1018 case 2 => 65497 case 3 => 65498
    case 4 => 65499 case 5 => 65500 case 6 => 65501 case 7 => 65502
    case 8 => 65503 case 9 => 65504 case 10 => 65505 case 11 => 0 case 12 => 0 case 13 => 0 case 14 => 0 case _ => 0
  }

  function AcCodeD(s: nat): nat {
    match s
    case 0 => 0 case 1 => 2040 case 2 => 65506 case 3 => 65507
    case 4 => 65508 case 5 => 65509 case 6 => 65510 case 7 => 65511
    case 8 => 65512 case 9 => 65513 case 10 => 65514 case 11 => 0 case 12 => 0 case 13 => 0 case 14 => 0 case _ => 0
  }

  function AcCodeE(s: nat): nat {
    match s
    case 0 => 0 case 1 => 65515 case 2 => 65516 case 3 => 65517
    case 4 => 65518 case 5 => 65519 case 6 => 65520 case 7 => 65521
    case 8 => 65522 case 9 => 65523 case 10 => 65524 case 11 => 0 case 12 => 0 case 13 => 0 case 14 => 0 case _ => 0
  }

  function AcCodeF(s: nat): nat {
    match s
    case 0 => 2041 case 1 => 65525 case 2 => 65526 case 3 => 65527
    case 4 => 65528 case 5 => 65529 case 6 => 65530 case 7 => 65531
    case 8 => 65532 case 9 => 65533 case 10 => 65534 case 11 => 0 case 12 => 0 case 13 => 0 case 14 => 0 case _ => 0
  }

  function AcLen0(s: nat): nat {
    match s
    case 0 => 4 case 1 => 2 case 2 => 2 case 3 => 3 case 4 => 4 case 5 => 5 case 6 => 7 case 7 => 8
    case 8 => 10 case 9 => 16 case 10 => 16 case 11 => 0 case 12 => 0 case 13 => 0 case 14 => 0 case _ => 0
  }

  function AcLen1(s: nat): nat {
    match s
    case 0 => 0 case 1 => 4 case 2 => 5 case 3 => 7 case 4 => 9 case 5 => 11 case 6 => 16 case 7 => 16
    case 8 => 16 case 9 => 16 case 10 => 16 case 11 => 0 case 12 => 0 case 13 => 0 case 14 => 0 case _ => 0
  }

  function AcLen2(s: nat): nat {
    match s
    case 0 => 0 case 1 => 5 case 2 => 8 case 3 => 10 case 4 => 12 case 5 => 16 case 6 => 16 case 7 => 16
    case 8 => 16 case 9 => 16 case 10 => 16 case 11 => 0 case 12 => 0 case 13 => 0 case 14 => 0 case _ => 0
  }

  function AcLen3(s: nat): nat {
    match s
    case 0 => 0 case 1 => 6 case 2 => 9 case 3 => 12 case 4 => 16 case 5 => 16 case 6 => 16 case 7 => 16
    case 8 => 16 case 9 => 16 case 10 => 16 case 11 => 0 case 12 => 0 case 13 => 0 case 14 => 0 case _ => 0
  }

  function AcLen4(s: nat): nat {
    match s
    case 0 => 0 case 1 => 6 case 2 => 10 case 3 => 16 case 4 => 16 case 5 => 16 case 6 => 16 case 7 => 16
    case 8 => 16 case 9 => 16 case 10 => 16 case 11 => 0 case 12 => 0 case 13 => 0 case 14 => 0 case _ => 0
  }

  function AcLen5(s: nat): nat {
    match s
    case 0 => 0 case 1 => 7 case 2 => 11 case 3 => 16 case 4 => 16 case 5 => 16 case 6 => 16 case 7 => 16
    case 8 => 16 case 9 => 16 case 10 => 16 case 11 => 0 case 12 => 0 case 13 => 0 case 14 => 0 case _ => 0
  }

  function AcLen6(s: nat): nat {
    match s
    case 0 => 0 case 1 => 7 case 2 => 12 case 3 => 16 case 4 => 16 case 5 => 16 case 6 => 16 case 7 => 16
    case 8 => 16 case 9 => 16 case 10 => 16 case 11 => 0 case 12 => 0 case 13 => 0 case 14 => 0 case _ => 0
  }

  function AcLen7(s: nat): nat {
    match s
    case 0 => 0 case 1 => 8 case 2 => 12 case 3 => 16 case 4 => 16 case 5 => 16 case 6 => 16 case 7 => 16
    case 8 => 16 case 9 => 16 case 10 => 16 case 11 => 0 case 12 => 0 case 13 => 0 case 14 => 0 case _ => 0
  }

  function AcLen8(s: nat): nat {
    match s
    case 0 => 0 case 1 => 9 case 2 => 15 case 3 => 16 case 4 => 16 case 5 => 16 case 6 => 16 case 7 => 16
    case 8 => 16 case 9 => 16 case 10 => 16 case 11 => 0 case 12 => 0 case 13 => 0 case 14 => 0 case _ => 0
  }

  function AcLen9(s: nat): nat {
    match s
    case 0 => 0 case 1 => 9 case 2 => 16 case 3 => 16 case 4 => 16 case 5 => 16 case 6 => 16 case 7 => 16
    case 8 => 16 case 9 => 16 case 10 => 16 case 11 => 0 case 12 => 0 case 13 => 0 case 14 => 0 case _ => 0
  }

  function AcLenA(s: nat): nat {
    match s
    case 0 => 0 case 1 => 9 case 2 => 16 case 3 => 16 case 4 => 16 case 5 => 16 case 6 => 16 case 7 => 16
    case 8 => 16 case 9 => 16 case 10 => 16 case 11 => 0 case 12 => 0 case 13 => 0 case 14 => 0 case _ => 0
  }

  function AcLenB(s: nat): nat {
    match s
    case 0 => 0 case 1 => 10 case 2 => 16 case 3 => 16 case 4 => 16 case 5 => 16 case 6 => 16 case 7 => 16
    case 8 => 16 case 9 => 16 case 10 => 16 case 11 => 0 case 12 => 0 case 13 => 0 case 14 => 0 case _ => 0
  }

  function AcLenC(s: nat): nat {
    match s
    case 0 => 0 case 1 => 10 case 2 => 16 case 3 => 16 case 4 => 16 case 5 => 16 case 6 => 16 case 7 => 16
    case 8 => 16 case 9 => 16 case 10 => 16 case 11 => 0 case 12 => 0 case 13 => 0 case 14 => 0 case _ => 0
  }

  function AcLenD(s: nat): nat {
    match s
    case 0 => 0 case 1 => 11 case 2 => 16 case 3 => 16 case 4 => 16 case 5 => 16 case 6 => 16 case 7 => 16
    case 8 => 16 case 9 => 16 case 10 => 16 case 11 => 0 case 12 => 0 case 13 => 0 case 14 => 0 case _ => 0
  }

  function AcLenE(s: nat): nat {
    match s
    case 0 => 0 case 1 => 16 case 2 => 16 case 3 => 16 case 4 => 16 case 5 => 16 case 6 => 16 case 7 => 16
    case 8 => 16 case 9 => 16 case 10 => 16 case 11 => 0 case 12 => 0 case 13 => 0 case 14 => 0 case _ => 0
  }

  function AcLenF(s: nat): nat {
    match s
    case 0 => 11 case 1 => 16 case 2 => 16 case 3 => 16 case 4 => 16 case 5 => 16 case 6 => 16 case 7 => 16
    case 8 => 16 case 9 => 16 case 10 => 16 case 11 => 0 case 12 => 0 case 13 => 0 case 14 => 0 case _ => 0
  }

  function AcCode(j: nat): nat {
    match j / 16
    case 0 => AcCode0(j % 16) case 1 => AcCode1(j % 16) case 2 => AcCode2(j % 16) case 3 => AcCode3(j % 16)
    case 4 => AcCode4(j % 16) case 5 => AcCode5(j % 16) case 6 => AcCode6(j % 16) case 7 => AcCode7(j % 16)
    case 8 => AcCode8(j % 16) case 9 => AcCode9(j % 16) case 10 => AcCodeA(j % 16) case 11 => AcCodeB(j % 16)
    case 12 => AcCodeC(j % 16) case 13 => AcCodeD(j % 16) case 14 => AcCodeE(j % 16) case _ => AcCodeF(j % 16)
  }

  function AcLen(j: nat): nat {
    match j / 16
    case 0 => AcLen0(j % 16) case 1 => AcLen1(j % 16) case 2 => AcLen2(j % 16) case 3 => AcLen3(j % 16)
    case 4 => AcLen4(j % 16) case 5 => AcLen5(j % 16) case 6 => AcLen6(j % 16) case 7 => AcLen7(j % 16)
    case 8 => AcLen8(j % 16) case 9 => AcLen9(j % 16) case 10 => AcLenA(j % 16) case 11 => AcLenB(j % 16)
    case 12 => AcLenC(j % 16) case 13 => AcLenD(j % 16) case 14 => AcLenE(j % 16) case _ => AcLenF(j % 16)
  }

  // ---- Canonical codes (Annex C of ITU-T T.81)

  function Nodes(ac: bool, n: nat): nat { if ac then AcNodes(n) else DcNodes(n) }

  function Val(ac: bool, k: nat): nat { if ac then AcVal(k) else DcVal(k) }

  /** The first code of n bits, and how many codes are shorter. */
  function First(ac: bool, n: nat): nat {
    if n <= 1 then 0 else 2 * (First(ac, n - 1) + Nodes(ac, n - 1))
  }

  function Shorter(ac: bool, n: nat): nat {
    if n <= 1 then 0 else Shorter(ac, n - 1) + Nodes(ac, n - 1)
  }

  /** The node counts and values of the file give sym this code of n bits. */
  predicate IsCode(ac: bool, sym: nat, code: nat, n: nat) {
    && 1 <= n <= 16
    && First(ac, n) <= code < First(ac, n) + Nodes(ac, n)
    && Val(ac, Shorter(ac, n) + (code - First(ac, n))) == sym
  }

  lemma FirstDc()
    ensures First(false, 2) == 0 && First(false, 3) == 2 && First(false, 4) == 14 && First(false, 5) == 30
    ensures First(false, 6) == 62 && First(false, 7) == 126 && First(false, 8) == 254 && First(false, 9) == 510
    ensures Shorter(false, 2) == 0 && Shorter(false, 3) == 1 && Shorter(false, 4) == 6 && Shorter(false, 5) == 7
    ensures Shorter(false, 6) == 8 && Shorter(false, 7) == 9 && Shorter(false, 8) == 10 && Shorter(false, 9) == 11
  {
    assert First(false, 4) == 14 && Shorter(false, 4) == 6;
    assert First(false, 6) == 62 && Shorter(false, 6) == 8;
    assert First(false, 8) == 254 && Shorter(false, 8) == 10;
  }

  lemma FirstAc()
    ensures First(true, 2) == 0 && First(true, 3) == 4 && First(true, 4) == 10 && First(true, 5) == 26
    ensures First(true, 6) == 58 && First(true, 7) == 120 && First(true, 8) == 248 && First(true, 9) == 502
    ensures First(true, 10) == 1014 && First(true, 11) == 2038 && First(true, 12) == 4084 && First(true, 15) == 32704
    ensures First(true, 16) == 65410
    ensures Shorter(true, 2) == 0 && Shorter(true, 3) == 2 && Shorter(true, 4) == 3 && Shorter(true, 5) == 6
    ensures Shorter(true, 6) == 9 && Shorter(true, 7) == 11 && Shorter(true, 8) == 15 && Shorter(true, 9) == 18
    ensures Shorter(true, 10) == 23 && Shorter(true, 11) == 28 && Shorter(true, 12) == 32 && Shorter(true, 15) == 36
    ensures Shorter(true, 16) == 37
  {
    assert First(true, 4) == 10 && Shorter(true, 4) == 3;
    assert First(true, 6) == 58 && Shorter(true, 6) == 9;
    assert First(true, 8) == 248 && Shorter(true, 8) == 15;
    assert First(true, 10) == 1014 && Shorter(true, 10) == 23;
    assert First(true, 12) == 4084 && Shorter(true, 12) == 32;
    assert First(true, 14) == 16352 && Shorter(true, 14) == 36;
  }

  // ---- The writer's tables are those codes

  /** jpec_dc_code and jpec_dc_len agree with the file's DC table. */
  lemma DcIsCode(t: nat)
    requires t <= 11
    ensures IsCode(false, t, DcCode(t), DcLen(t))
  {
    hide First, Shorter;
    FirstDc();
  }

  /** The symbols that the encoder writes: a run below 16 and a size of 1 to 10 bits, the
      end of the block, and sixteen zeros. */
  predicate IsAcSymbol(j: nat) {
    j == 0 || j == 0xF0 || (j < 0x100 && 1 <= j % 16 <= 10)
  }

  /** The k-th value has the code that lies as far behind the first of its length. */
  lemma AcCodeAt(sym: nat, code: nat, n: nat, k: nat)
    requires 1 <= n <= 16 && First(true, n) <= code < First(true, n) + AcNodes(n)
    requires k == Shorter(true, n) + (code - First(true, n)) && AcVal(k) == sym
    ensures IsCode(true, sym, code, n)
  {
    hide First, Shorter, AcVal, AcNodes;
  }

  lemma Row0(j: nat)
    requires IsAcSymbol(j) && j / 16 == 0
    ensures IsCode(true, j, AcCode(j), AcLen(j))
  {
    hide First, Shorter, IsCode;
    FirstAc();
    if j == 0x00 { AcCodeAt(j, 0xA, 4, 3); }
    else if j == 0x01 { AcCodeAt(j, 0x0, 2, 0); }
    else if j == 0x02 { AcCodeAt(j, 0x1, 2, 1); }
    else if j == 0x03 { AcCodeAt(j, 0x4, 3, 2); }
    else if j == 0x04 { AcCodeAt(j, 0xB, 4, 4); }
    else if j == 0x05 { AcCodeAt(j, 0x1A, 5, 6); }
    else if j == 0x06 { AcCodeAt(j, 0x78, 7, 11); }
    else if j == 0x07 { AcCodeAt(j, 0xF8, 8, 15); }
    else if j == 0x08 { AcCodeAt(j, 0x3F6, 10, 23); }
    else if j == 0x09 { AcCodeAt(j, 0xFF82, 16, 37); }
    else if j == 0x0A { AcCodeAt(j, 0xFF83, 16, 38); }
  }

  lemma Row1(j: nat)
    requires IsAcSymbol(j) && j / 16 == 1
    ensures IsCode(true, j, AcCode(j), AcLen(j))
  {
    hide First, Shorter, IsCode;
    FirstAc();
    if j == 0x11 { AcCodeAt(j, 0xC, 4, 5); }
    else if j == 0x12 { AcCodeAt(j, 0x1B, 5, 7); }
    else if j == 0x13 { AcCodeAt(j, 0x79, 7, 12); }
    else if j == 0x14 { AcCodeAt(j, 0x1F6, 9, 18); }
    else if j == 0x15 { AcCodeAt(j, 0x7F6, 11, 28); }
    else if j == 0x16 { AcCodeAt(j, 0xFF84, 16, 39); }
    else if j == 0x17 { AcCodeAt(j, 0xFF85, 16, 40); }
    else if j == 0x18 { AcCodeAt(j, 0xFF86, 16, 41); }
    else if j == 0x19 { AcCodeAt(j, 0xFF87, 16, 42); }
    else if j == 0x1A { AcCodeAt(j, 0xFF88, 16, 43); }
  }

  lemma Row2(j: nat)
    requires IsAcSymbol(j) && j / 16 == 2
    ensures IsCode(true, j, AcCode(j), AcLen(j))
  {
    hide First, Shorter, IsCode;
    FirstAc();
    if j == 0x21 { AcCodeAt(j, 0x1C, 5, 8); }
    else if j == 0x22 { AcCodeAt(j, 0xF9, 8, 16); }
    else if j == 0x23 { AcCodeAt(j, 0x3F7, 10, 24); }
    else if j == 0x24 { AcCodeAt(j, 0xFF4, 12, 32); }
    else if j == 0x25 { AcCodeAt(j, 0xFF89, 16, 44); }
    else if j == 0x26 { AcCodeAt(j, 0xFF8A, 16, 45); }
    else if j == 0x27 { AcCodeAt(j, 0xFF8B, 16, 46); }
    else if j == 0x28 { AcCodeAt(j, 0xFF8C, 16, 47); }
    else if j == 0x29 { AcCodeAt(j, 0xFF8D, 16, 48); }
    else if j == 0x2A { AcCodeAt(j, 0xFF8E, 16, 49); }
  }

  lemma Row3(j: nat)
    requires IsAcSymbol(j) && j / 16 == 3
    ensures IsCode(true, j, AcCode(j), AcLen(j))
  {
    hide First, Shorter, IsCode;
    FirstAc();
    if j == 0x31 { AcCodeAt(j, 0x3A, 6, 9); }
    else if j == 0x32 { AcCodeAt(j, 0x1F7, 9, 19); }
    else if j == 0x33 { AcCodeAt(j, 0xFF5, 12, 33); }
    else if j == 0x34 { AcCodeAt(j, 0xFF8F, 16, 50); }
    else if j == 0x35 { AcCodeAt(j, 0xFF90, 16, 51); }
    else if j == 0x36 { AcCodeAt(j, 0xFF91, 16, 52); }
    else if j == 0x37 { AcCodeAt(j, 0xFF92, 16, 53); }
    else if j == 0x38 { AcCodeAt(j, 0xFF93, 16, 54); }
    else if j == 0x39 { AcCodeAt(j, 0xFF94, 16, 55); }
    else if j == 0x3A { AcCodeAt(j, 0xFF95, 16, 56); }
  }

  lemma Row4(j: nat)
    requires IsAcSymbol(j) && j / 16 == 4
    ensures IsCode(true, j, AcCode(j), AcLen(j))
  {
    hide First, Shorter, IsCode;
    FirstAc();
    if j == 0x41 { AcCodeAt(j, 0x3B, 6, 10); }
    else if j == 0x42 { AcCodeAt(j, 0x3F8, 10, 25); }
    else if j == 0x43 { AcCodeAt(j, 0xFF96, 16, 57); }
    else if j == 0x44 { AcCodeAt(j, 0xFF97, 16, 58); }
    else if j == 0x45 { AcCodeAt(j, 0xFF98, 16, 59); }
    else if j == 0x46 { AcCodeAt(j, 0xFF99, 16, 60); }
    else if j == 0x47 { AcCodeAt(j, 0xFF9A, 16, 61); }
    else if j == 0x48 { AcCodeAt(j, 0xFF9B, 16, 62); }
    else if j == 0x49 { AcCodeAt(j, 0xFF9C, 16, 63); }
    else if j == 0x4A { AcCodeAt(j, 0xFF9D, 16, 64); }
  }

  lemma Row5(j: nat)
    requires IsAcSymbol(j) && j / 16 == 5
    ensures IsCode(true, j, AcCode(j), AcLen(j))
  {
    hide First, Shorter, IsCode;
    FirstAc();
    if j == 0x51 { AcCodeAt(j, 0x7A, 7, 13); }
    else if j == 0x52 { AcCodeAt(j, 0x7F7, 11, 29); }
    else if j == 0x53 { AcCodeAt(j, 0xFF9E, 16, 65); }
    else if j == 0x54 { AcCodeAt(j, 0xFF9F, 16, 66); }
    else if j == 0x55 { AcCodeAt(j, 0xFFA0, 16, 67); }
    else if j == 0x56 { AcCodeAt(j, 0xFFA1, 16, 68); }
    else if j == 0x57 { AcCodeAt(j, 0xFFA2, 16, 69); }
    else if j == 0x58 { AcCodeAt(j, 0xFFA3, 16, 70); }
    else if j == 0x59 { AcCodeAt(j, 0xFFA4, 16, 71); }
    else if j == 0x5A { AcCodeAt(j, 0xFFA5, 16, 72); }
  }

  lemma Row6(j: nat)
    requires IsAcSymbol(j) && j / 16 == 6
    ensures IsCode(true, j, AcCode(j), AcLen(j))
  {
    hide First, Shorter, IsCode;
    FirstAc();
    if j == 0x61 { AcCodeAt(j, 0x7B, 7, 14); }
    else if j == 0x62 { AcCodeAt(j, 0xFF6, 12, 34); }
    else if j == 0x63 { AcCodeAt(j, 0xFFA6, 16, 73); }
    else if j == 0x64 { AcCodeAt(j, 0xFFA7, 16, 74); }
    else if j == 0x65 { AcCodeAt(j, 0xFFA8, 16, 75); }
    else if j == 0x66 { AcCodeAt(j, 0xFFA9, 16, 76); }
    else if j == 0x67 { AcCodeAt(j, 0xFFAA, 16, 77); }
    else if j == 0x68 { AcCodeAt(j, 0xFFAB, 16, 78); }
    else if j == 0x69 { AcCodeAt(j, 0xFFAC, 16, 79); }
    else if j == 0x6A { AcCodeAt(j, 0xFFAD, 16, 80); }
  }

  lemma Row7(j: nat)
    requires IsAcSymbol(j) && j / 16 == 7
    ensures IsCode(true, j, AcCode(j), AcLen(j))
  {
    hide First, Shorter, IsCode;
    FirstAc();
    if j == 0x71 { AcCodeAt(j, 0xFA, 8, 17); }
    else if j == 0x72 { AcCodeAt(j, 0xFF7, 12, 35); }
    else if j == 0x73 { AcCodeAt(j, 0xFFAE, 16, 81); }
    else if j == 0x74 { AcCodeAt(j, 0xFFAF, 16, 82); }
    else if j == 0x75 { AcCodeAt(j, 0xFFB0, 16, 83); }
    else if j == 0x76 { AcCodeAt(j, 0xFFB1, 16, 84); }
    else if j == 0x77 { AcCodeAt(j, 0xFFB2, 16, 85); }
    else if j == 0x78 { AcCodeAt(j, 0xFFB3, 16, 86); }
    else if j == 0x79 { AcCodeAt(j, 0xFFB4, 16, 87); }
    else if j == 0x7A { AcCodeAt(j, 0xFFB5, 16, 88); }
  }

  lemma Row8(j: nat)
    requires IsAcSymbol(j) && j / 16 == 8
    ensures IsCode(true, j, AcCode(j), AcLen(j))
  {
    hide First, Shorter, IsCode;
    FirstAc();
    if j == 0x81 { AcCodeAt(j, 0x1F8, 9, 20); }
    else if j == 0x82 { AcCodeAt(j, 0x7FC0, 15, 36); }
    else if j == 0x83 { AcCodeAt(j, 0xFFB6, 16, 89); }
    else if j == 0x84 { AcCodeAt(j, 0xFFB7, 16, 90); }
    else if j == 0x85 { AcCodeAt(j, 0xFFB8, 16, 91); }
    else if j == 0x86 { AcCodeAt(j, 0xFFB9, 16, 92); }
    else if j == 0x87 { AcCodeAt(j, 0xFFBA, 16, 93); }
    else if j == 0x88 { AcCodeAt(j, 0xFFBB, 16, 94); }
    else if j == 0x89 { AcCodeAt(j, 0xFFBC, 16, 95); }
    else if j == 0x8A { AcCodeAt(j, 0xFFBD, 16, 96); }
  }

  lemma Row9(j: nat)
    requires IsAcSymbol(j) && j / 16 == 9
    ensures IsCode(true, j, AcCode(j), AcLen(j))
  {
    hide First, Shorter, IsCode;
    FirstAc();
    if j == 0x91 { AcCodeAt(j, 0x1F9, 9, 21); }
    else if j == 0x92 { AcCodeAt(j, 0xFFBE, 16, 97); }
    else if j == 0x93 { AcCodeAt(j, 0xFFBF, 16, 98); }
    else if j == 0x94 { AcCodeAt(j, 0xFFC0, 16, 99); }
    else if j == 0x95 { AcCodeAt(j, 0xFFC1, 16, 100); }
    else if j == 0x96 { AcCodeAt(j, 0xFFC2, 16, 101); }
    else if j == 0x97 { AcCodeAt(j, 0xFFC3, 16, 102); }
    else if j == 0x98 { AcCodeAt(j, 0xFFC4, 16, 103); }
    else if j == 0x99 { AcCodeAt(j, 0xFFC5, 16, 104); }
    else if j == 0x9A { AcCodeAt(j, 0xFFC6, 16, 105); }
  }

  lemma RowA(j: nat)
    requires IsAcSymbol(j) && j / 16 == 10
    ensures IsCode(true, j, AcCode(j), AcLen(j))
  {
    hide First, Shorter, IsCode;
    FirstAc();
    if j == 0xA1 { AcCodeAt(j, 0x1FA, 9, 22); }
    else if j == 0xA2 { AcCodeAt(j, 0xFFC7, 16, 106); }
    else if j == 0xA3 { AcCodeAt(j, 0xFFC8, 16, 107); }
    else if j == 0xA4 { AcCodeAt(j, 0xFFC9, 16, 108); }
    else if j == 0xA5 { AcCodeAt(j, 0xFFCA, 16, 109); }
    else if j == 0xA6 { AcCodeAt(j, 0xFFCB, 16, 110); }
    else if j == 0xA7 { AcCodeAt(j, 0xFFCC, 16, 111); }
    else if j == 0xA8 { AcCodeAt(j, 0xFFCD, 16, 112); }
    else if j == 0xA9 { AcCodeAt(j, 0xFFCE, 16, 113); }
    else if j == 0xAA { AcCodeAt(j, 0xFFCF, 16, 114); }
  }

  lemma RowB(j: nat)
    requires IsAcSymbol(j) && j / 16 == 11
    ensures IsCode(true, j, AcCode(j), AcLen(j))
  {
    hide First, Shorter, IsCode;
    FirstAc();
    if j == 0xB1 { AcCodeAt(j, 0x3F9, 10, 26); }
    else if j == 0xB2 { AcCodeAt(j, 0xFFD0, 16, 115); }
    else if j == 0xB3 { AcCodeAt(j, 0xFFD1, 16, 116); }
    else if j == 0xB4 { AcCodeAt(j, 0xFFD2, 16, 117); }
    else if j == 0xB5 { AcCodeAt(j, 0xFFD3, 16, 118); }
    else if j == 0xB6 { AcCodeAt(j, 0xFFD4, 16, 119); }
    else if j == 0xB7 { AcCodeAt(j, 0xFFD5, 16, 120); }
    else if j == 0xB8 { AcCodeAt(j, 0xFFD6, 16, 121); }
    else if j == 0xB9 { AcCodeAt(j, 0xFFD7, 16, 122); }
    else if j == 0xBA { AcCodeAt(j, 0xFFD8, 16, 123); }
  }

  lemma RowC(j: nat)
    requires IsAcSymbol(j) && j / 16 == 12
    ensures IsCode(true, j, AcCode(j), AcLen(j))
  {
    hide First, Shorter, IsCode;
    FirstAc();
    if j == 0xC1 { AcCodeAt(j, 0x3FA, 10, 27); }
    else if j == 0xC2 { AcCodeAt(j, 0xFFD9, 16, 124); }
    else if j == 0xC3 { AcCodeAt(j, 0xFFDA, 16, 125); }
    else if j == 0xC4 { AcCodeAt(j, 0xFFDB, 16, 126); }
    else if j == 0xC5 { AcCodeAt(j, 0xFFDC, 16, 127); }
    else if j == 0xC6 { AcCodeAt(j, 0xFFDD, 16, 128); }
    else if j == 0xC7 { AcCodeAt(j, 0xFFDE, 16, 129); }
    else if j == 0xC8 { AcCodeAt(j, 0xFFDF, 16, 130); }
    else if j == 0xC9 { AcCodeAt(j, 0xFFE0, 16, 131); }
    else if j == 0xCA { AcCodeAt(j, 0xFFE1, 16, 132); }
  }

  lemma RowD(j: nat)
    requires IsAcSymbol(j) && j / 16 == 13
    ensures IsCode(true, j, AcCode(j), AcLen(j))
  {
    hide First, Shorter, IsCode;
    FirstAc();
    if j == 0xD1 { AcCodeAt(j, 0x7F8, 11, 30); }
    else if j == 0xD2 { AcCodeAt(j, 0xFFE2, 16, 133); }
    else if j == 0xD3 { AcCodeAt(j, 0xFFE3, 16, 134); }
    else if j == 0xD4 { AcCodeAt(j, 0xFFE4, 16, 135); }
    else if j == 0xD5 { AcCodeAt(j, 0xFFE5, 16, 136); }
    else if j == 0xD6 { AcCodeAt(j, 0xFFE6, 16, 137); }
    else if j == 0xD7 { AcCodeAt(j, 0xFFE7, 16, 138); }
    else if j == 0xD8 { AcCodeAt(j, 0xFFE8, 16, 139); }
    else if j == 0xD9 { AcCodeAt(j, 0xFFE9, 16, 140); }
    else if j == 0xDA { AcCodeAt(j, 0xFFEA, 16, 141); }
  }

  lemma RowE(j: nat)
    requires IsAcSymbol(j) && j / 16 == 14
    ensures IsCode(true, j, AcCode(j), AcLen(j))
  {
    hide First, Shorter, IsCode;
    FirstAc();
    if j == 0xE1 { AcCodeAt(j, 0xFFEB, 16, 142); }
    else if j == 0xE2 { AcCodeAt(j, 0xFFEC, 16, 143); }
    else if j == 0xE3 { AcCodeAt(j, 0xFFED, 16, 144); }
    else if j == 0xE4 { AcCodeAt(j, 0xFFEE, 16, 145); }
    else if j == 0xE5 { AcCodeAt(j, 0xFFEF, 16, 146); }
    else if j == 0xE6 { AcCodeAt(j, 0xFFF0, 16, 147); }
    else if j == 0xE7 { AcCodeAt(j, 0xFFF1, 16, 148); }
    else if j == 0xE8 { AcCodeAt(j, 0xFFF2, 16, 149); }
    else if j == 0xE9 { AcCodeAt(j, 0xFFF3, 16, 150); }
    else if j == 0xEA { AcCodeAt(j, 0xFFF4, 16, 151); }
  }

  lemma RowF(j: nat)
    requires IsAcSymbol(j) && j / 16 == 15
    ensures IsCode(true, j, AcCode(j), AcLen(j))
  {
    hide First, Shorter, IsCode;
    FirstAc();
    if j == 0xF0 { AcCodeAt(j, 0x7F9, 11, 31); }
    else if j == 0xF1 { AcCodeAt(j, 0xFFF5, 16, 152); }
    else if j == 0xF2 { AcCodeAt(j, 0xFFF6, 16, 153); }
    else if j == 0xF3 { AcCodeAt(j, 0xFFF7, 16, 154); }
    else if j == 0xF4 { AcCodeAt(j, 0xFFF8, 16, 155); }
    else if j == 0xF5 { AcCodeAt(j, 0xFFF9, 16, 156); }
    else if j == 0xF6 { AcCodeAt(j, 0xFFFA, 16, 157); }
    else if j == 0xF7 { AcCodeAt(j, 0xFFFB, 16, 158); }
    else if j == 0xF8 { AcCodeAt(j, 0xFFFC, 16, 159); }
    else if j == 0xF9 { AcCodeAt(j, 0xFFFD, 16, 160); }
    else if j == 0xFA { AcCodeAt(j, 0xFFFE, 16, 161); }
  }

  /** jpec_ac_code and jpec_ac_len agree with the file's AC table. */
  lemma AcIsCode(j: nat)
    requires IsAcSymbol(j)
    ensures IsCode(true, j, AcCode(j), AcLen(j))
  {
    hide IsCode, AcCode, AcLen;
    match j / 16
    case 0 => Row0(j);
    case 1 => Row1(j);
    case 2 => Row2(j);
    case 3 => Row3(j);
    case 4 => Row4(j);
    case 5 => Row5(j);
    case 6 => Row6(j);
    case 7 => Row7(j);
    case 8 => Row8(j);
    case 9 => Row9(j);
    case 10 => RowA(j);
    case 11 => RowB(j);
    case 12 => RowC(j);
    case 13 => RowD(j);
    case 14 => RowE(j);
    case _ => RowF(j);
  }

  // ---- The decoder finds the symbol

  datatype Found = Found(sym: nat, used: nat) | NotFound

  /** Procedure DECODE of section F.2.2.3: having read n bits with the value `code`, take
      one more until they are a code. */
  function Lookup(ac: bool, bits: seq<bool>, n: nat, code: nat): (r: Found)
    requires n <= 16 && n <= |bits|
    ensures r.Found? ==> n <= r.used <= |bits|
    decreases 16 - n
  {
    if n >= 1 && First(ac, n) <= code < First(ac, n) + Nodes(ac, n) then
      Found(Val(ac, Shorter(ac, n) + (code - First(ac, n))), n)
    else if n == 16 || n >= |bits| then NotFound
    else Lookup(ac, bits, n + 1, 2 * code + if bits[n] then 1 else 0)
  }

  /** Codes of n bits lie above the continuations of all shorter codes. */
  lemma {:induction false} FirstGrows(ac: bool, n: nat, m: nat)
    requires 1 <= n < m
    ensures First(ac, m) >= (First(ac, n) + Nodes(ac, n)) * Pow2(m - n)
  {
    hide Nodes;
    var c := First(ac, n) + Nodes(ac, n);
    if m == n + 1 {
      assert Pow2(1) == 2;
    } else {
      FirstGrows(ac, n, m - 1);
      assert c * Pow2(m - n) == 2 * (c * Pow2(m - 1 - n));
    }
  }

  /** Codes of n bits are n-bit numbers. */
  lemma CodesFit(ac: bool, n: nat)
    requires 1 <= n <= 16
    ensures First(ac, n) + Nodes(ac, n) <= Pow2(n)
  {
    hide Pow2, First;
    SmallPowers();
    if ac { FirstAc(); AcGaps(); } else { FirstDc(); DcGaps(); }
  }

  lemma SmallPowers()
    ensures Pow2(1) == 2 && Pow2(2) == 4 && Pow2(3) == 8 && Pow2(4) == 16 && Pow2(5) == 32 && Pow2(6) == 64
    ensures Pow2(7) == 128 && Pow2(8) == 256 && Pow2(9) == 512 && Pow2(10) == 1024 && Pow2(11) == 2048
    ensures Pow2(12) == 4096 && Pow2(13) == 8192 && Pow2(14) == 16384 && Pow2(15) == 32768 && Pow2(16) == 65536
  {
    assert Pow2(4) == 16;
    assert Pow2(8) == 256;
    assert Pow2(12) == 4096;
  }

  lemma AcGaps()
    ensures First(true, 1) == 0 && First(true, 13) == 8176 && First(true, 14) == 16352
  {
    FirstAc();
  }

  lemma DcGaps()
    ensures First(false, 1) == 0 && First(false, 10) == 1022 && First(false, 11) == 2044 && First(false, 12) == 4088
    ensures First(false, 13) == 8176 && First(false, 14) == 16352 && First(false, 15) == 32704
    ensures First(false, 16) == 65408
  {
    FirstDc();
    assert First(false, 12) == 4088;
    assert First(false, 14) == 16352;
  }

  /** After n bits of a code, the procedure stands at the code's high part. */
  lemma {:induction false} LookupFrom(ac: bool, sym: nat, code: nat, len: nat, rest: seq<bool>, n: nat)
    requires IsCode(ac, sym, code, len) && n <= len <= 16 && code < Pow2(len)
    ensures 0 <= code / Pow2(len - n) && n <= |BigEndian(code, len) + rest|
    ensures Lookup(ac, BigEndian(code, len) + rest, n, code / Pow2(len - n)) == Found(sym, len)
    decreases len - n
  {
    hide *;
    Quotient(code, Pow2(len - n));
    if n == len {
      PowZero();
      LookupHere(ac, sym, code, len, BigEndian(code, len) + rest);
    } else {
      var bits := BigEndian(code, len) + rest;
      NotYet(ac, sym, code, len, n);
      NextBit(code, len - n - 1);
      CodeBit(code, len, rest, n);
      assert len - n - 1 == len - (n + 1) && len - n - 1 + 1 == len - n;
      LookupStep(ac, bits, n, code / Pow2(len - n));
      LookupFrom(ac, sym, code, len, rest, n + 1);
    }
  }

  lemma LookupHere(ac: bool, sym: nat, code: nat, n: nat, bits: seq<bool>)
    requires IsCode(ac, sym, code, n) && n <= |bits|
    ensures Lookup(ac, bits, n, code / 1) == Found(sym, n)
  {
    hide First, Nodes, Shorter, Val;
    assert code / 1 == code;
  }

  lemma LookupStep(ac: bool, bits: seq<bool>, n: nat, code: nat)
    requires n < 16 && n < |bits| && (n >= 1 ==> First(ac, n) + Nodes(ac, n) <= code)
    ensures Lookup(ac, bits, n, code) == Lookup(ac, bits, n + 1, 2 * code + if bits[n] then 1 else 0)
  {
    hide First, Nodes, Shorter, Val;
  }

  lemma CodeBit(code: nat, len: nat, rest: seq<bool>, n: nat)
    requires n < len
    ensures n < |BigEndian(code, len) + rest| && (BigEndian(code, len) + rest)[n] == Bit(code, len - n - 1)
  {
    hide Bit;
  }

  lemma PowZero()
    ensures Pow2(0) == 1
  {}

  lemma NotYet(ac: bool, sym: nat, code: nat, len: nat, n: nat)
    requires n < len && IsCode(ac, sym, code, len)
    ensures len <= 16
    ensures n >= 1 ==> First(ac, n) + Nodes(ac, n) <= code / Pow2(len - n)
  {
    hide Nodes, First, Pow2, Val, Shorter;
    if n >= 1 {
      var c, p := First(ac, n) + Nodes(ac, n), Pow2(len - n);
      FirstGrows(ac, n, len);
      Euclid(code, p);
      if code / p < c { MulMono(code / p, c - 1, p); Distribute(c, -1, p); }
    }
  }

  lemma NextBit(code: nat, m: nat)
    ensures 0 <= code / Pow2(m + 1)
    ensures code / Pow2(m) == 2 * (code / Pow2(m + 1)) + if Bit(code, m) then 1 else 0
  {
    HighBitKept(code, m, 0);
    DivDiv(code, Pow2(m), 2);
    Quotient(code, Pow2(m));
  }

  /** A code followed by any bits is recognised, and no more bits are used. */
  lemma LookupCode(ac: bool, sym: nat, code: nat, len: nat, rest: seq<bool>)
    requires IsCode(ac, sym, code, len)
    ensures Lookup(ac, BigEndian(code, len) + rest, 0, 0) == Found(sym, len)
  {
    hide *;
    CodeRange(ac, sym, code, len);
    NothingRead(code, Pow2(len));
    LookupFrom(ac, sym, code, len, rest, 0);
    assert len - 0 == len;
  }

  lemma CodeRange(ac: bool, sym: nat, code: nat, len: nat)
    requires IsCode(ac, sym, code, len)
    ensures 1 <= len <= 16 && code < Pow2(len)
  {
    hide First, Nodes, Pow2, Val, Shorter;
    CodesFit(ac, len);
  }

  lemma NothingRead(code: nat, p: nat)
    requires code < p
    ensures code / p == 0
  {
    if code / p >= 1 { Euclid(code, p); MulMono(1, code / p, p); }
    Quotient(code, p);
  }

}
