/** The emoji alphabet of address strings (address/emoji.go): one symbol a byte. */
module Emoji {
  import opened Bytes
  import opened Text

  /** Row r spells the bytes 16 r to 16 r + 15. */
  function Row(row: nat): (s: string)
    requires row < 16
    ensures |s| == 16
  {
    if row == 0 then "🐢📟🌈🌊🎯🐋🌙🤔🌕⭐🎋🌰🌴🌵🌲🌸"
    else if row == 1 then "🌹🌻🌽🍀🍁🍄🥑🍆🍇🍈🍉🍊🍋🍌🍍🍎"
    else if row == 2 then "🍐🍑🍒🍓🍔🍕🍗🍚🍞🍟🥝🍣🍦🍩🍪🍫"
    else if row == 3 then "🍬🍭🍯🥐🍳🥄🍵🍶🍷🍸🍾🍺🍼🎀🎁🎂"
    else if row == 4 then "🎃🤖🎈🎉🎒🎓🎠🎡🎢🎣🎤🎥🎧🎨🎩🎪"
    else if row == 5 then "🎬🎭🎮🎰🎱🎲🎳🎵🎷🎸🎹🎺🎻🎼🎽🎾"
    else if row == 6 then "🎿🏀🏁🏆🏈⚽🏠🏥🏦🏭🏰🐀🐉🐊🐌🐍"
    else if row == 7 then "🦁🐐🐑🐔🙈🐗🐘🐙🐚🐛🐜🐝🐞🦋🐣🐨"
    else if row == 8 then "🦀🐪🐬🐭🐮🐯🐰🦆🦂🐴🐵🐶🐷🐸🐺🐻"
    else if row == 9 then "🐼🐽🐾👀👅👑👒🧢💅👕👖👗👘👙💃👛"
    else if row == 10 then "👞👟👠🥊👢👣🤡👻👽👾🤠👃💄💈💉💊"
    else if row == 11 then "💋👂💍💎💐💔🔒🧩💡💣💤💦💨💩➕💯"
    else if row == 12 then "💰💳💵💺💻💼📈📜📌📎📖📿📡⏰📱📷"
    else if row == 13 then "🔋🔌🚰🔑🔔🔥🔦🔧🔨🔩🔪🔫🔬🔭🔮🔱"
    else if row == 14 then "🗽😂😇😈🤑😍😎😱😷🤢👍👶🚀🚁🚂🚚"
    else "🚑🚒🚓🛵🚗🚜🚢🚦🚧🚨🚪🚫🚲🚽🚿🧲"
  }

  function EmojiOf(b: Byte): Rune {
    Row(b / 16)[b % 16] as int
  }

  /**
    The byte of a symbol, or -1, by a search on the code point. It inverts `EmojiOf`, which is how
    the table is known to hold no symbol twice.
   */
  function Search(c: int): int {
    if c < 127808 then (
        if c == 9200 then 205 else if c == 9917 then 101 else if c == 10133 then 190 else if c == 11088 then 9
        else if c == 127752 then 2 else if c == 127754 then 3 else if c == 127765 then 8 else if c == 127769 then 6
        else if c == 127792 then 11 else if c == 127794 then 14 else if c == 127796 then 12 else if c == 127797 then 13
        else if c == 127800 then 15 else if c == 127801 then 16 else if c == 127803 then 17 else if c == 127805 then 18 else -1)
    else if c < 127828 then (
        if c == 127808 then 19 else if c == 127809 then 20 else if c == 127812 then 21 else if c == 127814 then 23
        else if c == 127815 then 24 else if c == 127816 then 25 else if c == 127817 then 26 else if c == 127818 then 27
        else if c == 127819 then 28 else if c == 127820 then 29 else if c == 127821 then 30 else if c == 127822 then 31
        else if c == 127824 then 32 else if c == 127825 then 33 else if c == 127826 then 34 else if c == 127827 then 35 else -1)
    else if c < 127862 then (
        if c == 127828 then 36 else if c == 127829 then 37 else if c == 127831 then 38 else if c == 127834 then 39
        else if c == 127838 then 40 else if c == 127839 then 41 else if c == 127843 then 43 else if c == 127846 then 44
        else if c == 127849 then 45 else if c == 127850 then 46 else if c == 127851 then 47 else if c == 127852 then 48
        else if c == 127853 then 49 else if c == 127855 then 50 else if c == 127859 then 52 else if c == 127861 then 54 else -1)
    else if c < 127905 then (
        if c == 127862 then 55 else if c == 127863 then 56 else if c == 127864 then 57 else if c == 127866 then 59
        else if c == 127868 then 60 else if c == 127870 then 58 else if c == 127872 then 61 else if c == 127873 then 62
        else if c == 127874 then 63 else if c == 127875 then 64 else if c == 127880 then 66 else if c == 127881 then 67
        else if c == 127883 then 10 else if c == 127890 then 68 else if c == 127891 then 69 else if c == 127904 then 70 else -1)
    else if c < 127923 then (
        if c == 127905 then 71 else if c == 127906 then 72 else if c == 127907 then 73 else if c == 127908 then 74
        else if c == 127909 then 75 else if c == 127911 then 76 else if c == 127912 then 77 else if c == 127913 then 78
        else if c == 127914 then 79 else if c == 127916 then 80 else if c == 127917 then 81 else if c == 127918 then 82
        else if c == 127919 then 4 else if c == 127920 then 83 else if c == 127921 then 84 else if c == 127922 then 85 else -1)
    else if c < 127973 then (
        if c == 127923 then 86 else if c == 127925 then 87 else if c == 127927 then 88 else if c == 127928 then 89
        else if c == 127929 then 90 else if c == 127930 then 91 else if c == 127931 then 92 else if c == 127932 then 93
        else if c == 127933 then 94 else if c == 127934 then 95 else if c == 127935 then 96 else if c == 127936 then 97
        else if c == 127937 then 98 else if c == 127942 then 99 else if c == 127944 then 100 else if c == 127968 then 102 else -1)
    else if c < 128026 then (
        if c == 127973 then 103 else if c == 127974 then 104 else if c == 127981 then 105 else if c == 127984 then 106
        else if c == 128000 then 107 else if c == 128009 then 108 else if c == 128010 then 109 else if c == 128011 then 5
        else if c == 128012 then 110 else if c == 128013 then 111 else if c == 128016 then 113 else if c == 128017 then 114
        else if c == 128020 then 115 else if c == 128023 then 117 else if c == 128024 then 118 else if c == 128025 then 119 else -1)
    else if c < 128054 then (
        if c == 128026 then 120 else if c == 128027 then 121 else if c == 128028 then 122 else if c == 128029 then 123
        else if c == 128030 then 124 else if c == 128034 then 0 else if c == 128035 then 126 else if c == 128040 then 127
        else if c == 128042 then 129 else if c == 128044 then 130 else if c == 128045 then 131 else if c == 128046 then 132
        else if c == 128047 then 133 else if c == 128048 then 134 else if c == 128052 then 137 else if c == 128053 then 138 else -1)
    else if c < 128086 then (
        if c == 128054 then 139 else if c == 128055 then 140 else if c == 128056 then 141 else if c == 128058 then 142
        else if c == 128059 then 143 else if c == 128060 then 144 else if c == 128061 then 145 else if c == 128062 then 146
        else if c == 128064 then 147 else if c == 128066 then 177 else if c == 128067 then 171 else if c == 128069 then 148
        else if c == 128077 then 234 else if c == 128081 then 149 else if c == 128082 then 150 else if c == 128085 then 153 else -1)
    else if c < 128133 then (
        if c == 128086 then 154 else if c == 128087 then 155 else if c == 128088 then 156 else if c == 128089 then 157
        else if c == 128091 then 159 else if c == 128094 then 160 else if c == 128095 then 161 else if c == 128096 then 162
        else if c == 128098 then 164 else if c == 128099 then 165 else if c == 128118 then 235 else if c == 128123 then 167
        else if c == 128125 then 168 else if c == 128126 then 169 else if c == 128131 then 158 else if c == 128132 then 172 else -1)
    else if c < 128176 then (
        if c == 128133 then 152 else if c == 128136 then 173 else if c == 128137 then 174 else if c == 128138 then 175
        else if c == 128139 then 176 else if c == 128141 then 178 else if c == 128142 then 179 else if c == 128144 then 180
        else if c == 128148 then 181 else if c == 128161 then 184 else if c == 128163 then 185 else if c == 128164 then 186
        else if c == 128166 then 187 else if c == 128168 then 188 else if c == 128169 then 189 else if c == 128175 then 191 else -1)
    else if c < 128267 then (
        if c == 128176 then 192 else if c == 128179 then 193 else if c == 128181 then 194 else if c == 128186 then 195
        else if c == 128187 then 196 else if c == 128188 then 197 else if c == 128200 then 198 else if c == 128204 then 200
        else if c == 128206 then 201 else if c == 128214 then 202 else if c == 128220 then 199 else if c == 128223 then 1
        else if c == 128225 then 204 else if c == 128241 then 206 else if c == 128247 then 207 else if c == 128255 then 203 else -1)
    else if c < 128509 then (
        if c == 128267 then 208 else if c == 128268 then 209 else if c == 128273 then 211 else if c == 128274 then 182
        else if c == 128276 then 212 else if c == 128293 then 213 else if c == 128294 then 214 else if c == 128295 then 215
        else if c == 128296 then 216 else if c == 128297 then 217 else if c == 128298 then 218 else if c == 128299 then 219
        else if c == 128300 then 220 else if c == 128301 then 221 else if c == 128302 then 222 else if c == 128305 then 223 else -1)
    else if c < 128666 then (
        if c == 128509 then 224 else if c == 128514 then 225 else if c == 128519 then 226 else if c == 128520 then 227
        else if c == 128525 then 229 else if c == 128526 then 230 else if c == 128561 then 231 else if c == 128567 then 232
        else if c == 128584 then 116 else if c == 128640 then 236 else if c == 128641 then 237 else if c == 128642 then 238
        else if c == 128657 then 240 else if c == 128658 then 241 else if c == 128659 then 242 else if c == 128663 then 244 else -1)
    else if c < 129312 then (
        if c == 128666 then 239 else if c == 128668 then 245 else if c == 128674 then 246 else if c == 128678 then 247
        else if c == 128679 then 248 else if c == 128680 then 249 else if c == 128682 then 250 else if c == 128683 then 251
        else if c == 128688 then 210 else if c == 128690 then 252 else if c == 128701 then 253 else if c == 128703 then 254
        else if c == 128757 then 243 else if c == 129297 then 228 else if c == 129300 then 7 else if c == 129302 then 65 else -1)
    else (
        if c == 129312 then 170 else if c == 129313 then 166 else if c == 129314 then 233 else if c == 129348 then 53
        else if c == 129354 then 163 else if c == 129360 then 51 else if c == 129361 then 22 else if c == 129373 then 42
        else if c == 129408 then 128 else if c == 129409 then 112 else if c == 129410 then 136 else if c == 129414 then 135
        else if c == 129419 then 125 else if c == 129506 then 151 else if c == 129513 then 183 else if c == 129522 then 255 else -1)
  }

  lemma RowInverse(row: nat, k: nat)
    requires row < 16 && k < 16
    ensures Search(Row(row)[k] as int) == 16 * row + k
  {
    hide *;
    if row < 2 { Rows0And1(row, k); }
    else if row < 4 { Rows2And3(row, k); }
    else if row < 6 { Rows4And5(row, k); }
    else if row < 8 { Rows6And7(row, k); }
    else if row < 10 { Rows8And9(row, k); }
    else if row < 12 { Rows10And11(row, k); }
    else if row < 14 { Rows12And13(row, k); }
    else { Rows14And15(row, k); }
  }

  lemma Rows0And1(row: nat, k: nat)
    requires 0 <= row <= 1 && k < 16
    ensures Search(Row(row)[k] as int) == 16 * row + k
  {
  }

  lemma Rows2And3(row: nat, k: nat)
    requires 2 <= row <= 3 && k < 16
    ensures Search(Row(row)[k] as int) == 16 * row + k
  {
  }

  lemma Rows4And5(row: nat, k: nat)
    requires 4 <= row <= 5 && k < 16
    ensures Search(Row(row)[k] as int) == 16 * row + k
  {
  }

  lemma Rows6And7(row: nat, k: nat)
    requires 6 <= row <= 7 && k < 16
    ensures Search(Row(row)[k] as int) == 16 * row + k
  {
  }

  lemma Rows8And9(row: nat, k: nat)
    requires 8 <= row <= 9 && k < 16
    ensures Search(Row(row)[k] as int) == 16 * row + k
  {
  }

  lemma Rows10And11(row: nat, k: nat)
    requires 10 <= row <= 11 && k < 16
    ensures Search(Row(row)[k] as int) == 16 * row + k
  {
  }

  lemma Rows12And13(row: nat, k: nat)
    requires 12 <= row <= 13 && k < 16
    ensures Search(Row(row)[k] as int) == 16 * row + k
  {
  }

  lemma Rows14And15(row: nat, k: nat)
    requires 14 <= row <= 15 && k < 16
    ensures Search(Row(row)[k] as int) == 16 * row + k
  {
  }

  lemma SearchInverts(b: Byte)
    ensures Search(EmojiOf(b)) == b
  {
    hide Search, Row;
    RowInverse(b / 16, b % 16);
  }

  lemma EmojiInjective(x: Byte, y: Byte)
    requires EmojiOf(x) == EmojiOf(y)
    ensures x == y
  {
    hide *;
    SearchInverts(x);
    SearchInverts(y);
  }

  /** No symbol is ASCII or white space. */
  lemma EmojiIsForeign(b: Byte)
    ensures EmojiOf(b) >= 128 && !IsSpace(EmojiOf(b)) && EmojiOf(b) != BAR
  {
    hide EmojiOf, Row;
    SearchInverts(b);
    SearchFindsNoPlainText(EmojiOf(b));
  }

  lemma SearchFindsNoPlainText(c: Rune)
    ensures c < 128 || IsSpace(c) ==> Search(c) == -1
  {
  }

  /** The map from symbols back to bytes that the program fills in a loop over the table. */
  method ReverseTable() returns (m: map<Rune, Byte>)
    ensures forall b: Byte :: EmojiOf(b) in m && m[EmojiOf(b)] == b
    ensures forall c :: c in m ==> c == EmojiOf(m[c])
  {
    m := map[];
    hide *;
    for i := 0 to 256
      invariant forall b: Byte :: b < i ==> EmojiOf(b) in m && m[EmojiOf(b)] == b
      invariant forall c :: c in m ==> m[c] < i && c == EmojiOf(m[c])
    {
      forall b: Byte | b < i
        ensures EmojiOf(b) != EmojiOf(i)
      {
        if EmojiOf(b) == EmojiOf(i) {
          EmojiInjective(b, i);
        }
      }
      m := m[EmojiOf(i) := i];
    }
  }

  // ---- The code points ----------------------------------------------------------------------

  /** The code points of the symbols of a row. */
  function CodePoints(row: nat): (s: seq<Rune>)
    requires row < 16
    ensures |s| == 16
  {
    if row == 0 then
    [0x1F422, 0x1F4DF, 0x1F308, 0x1F30A, 0x1F3AF, 0x1F40B, 0x1F319, 0x1F914,
     0x1F315, 0x2B50, 0x1F38B, 0x1F330, 0x1F334, 0x1F335, 0x1F332, 0x1F338]
    else if row == 1 then
    [0x1F339, 0x1F33B, 0x1F33D, 0x1F340, 0x1F341, 0x1F344, 0x1F951, 0x1F346,
     0x1F347, 0x1F348, 0x1F349, 0x1F34A, 0x1F34B, 0x1F34C, 0x1F34D, 0x1F34E]
    else if row == 2 then
    [0x1F350, 0x1F351, 0x1F352, 0x1F353, 0x1F354, 0x1F355, 0x1F357, 0x1F35A,
     0x1F35E, 0x1F35F, 0x1F95D, 0x1F363, 0x1F366, 0x1F369, 0x1F36A, 0x1F36B]
    else if row == 3 then
    [0x1F36C, 0x1F36D, 0x1F36F, 0x1F950, 0x1F373, 0x1F944, 0x1F375, 0x1F376,
     0x1F377, 0x1F378, 0x1F37E, 0x1F37A, 0x1F37C, 0x1F380, 0x1F381, 0x1F382]
    else if row == 4 then
    [0x1F383, 0x1F916, 0x1F388, 0x1F389, 0x1F392, 0x1F393, 0x1F3A0, 0x1F3A1,
     0x1F3A2, 0x1F3A3, 0x1F3A4, 0x1F3A5, 0x1F3A7, 0x1F3A8, 0x1F3A9, 0x1F3AA]
    else if row == 5 then
    [0x1F3AC, 0x1F3AD, 0x1F3AE, 0x1F3B0, 0x1F3B1, 0x1F3B2, 0x1F3B3, 0x1F3B5,
     0x1F3B7, 0x1F3B8, 0x1F3B9, 0x1F3BA, 0x1F3BB, 0x1F3BC, 0x1F3BD, 0x1F3BE]
    else if row == 6 then
    [0x1F3BF, 0x1F3C0, 0x1F3C1, 0x1F3C6, 0x1F3C8, 0x26BD, 0x1F3E0, 0x1F3E5,
     0x1F3E6, 0x1F3ED, 0x1F3F0, 0x1F400, 0x1F409, 0x1F40A, 0x1F40C, 0x1F40D]
    else if row == 7 then
    [0x1F981, 0x1F410, 0x1F411, 0x1F414, 0x1F648, 0x1F417, 0x1F418, 0x1F419,
     0x1F41A, 0x1F41B, 0x1F41C, 0x1F41D, 0x1F41E, 0x1F98B, 0x1F423, 0x1F428]
    else if row == 8 then
    [0x1F980, 0x1F42A, 0x1F42C, 0x1F42D, 0x1F42E, 0x1F42F, 0x1F430, 0x1F986,
     0x1F982, 0x1F434, 0x1F435, 0x1F436, 0x1F437, 0x1F438, 0x1F43A, 0x1F43B]
    else if row == 9 then
    [0x1F43C, 0x1F43D, 0x1F43E, 0x1F440, 0x1F445, 0x1F451, 0x1F452, 0x1F9E2,
     0x1F485, 0x1F455, 0x1F456, 0x1F457, 0x1F458, 0x1F459, 0x1F483, 0x1F45B]
    else if row == 10 then
    [0x1F45E, 0x1F45F, 0x1F460, 0x1F94A, 0x1F462, 0x1F463, 0x1F921, 0x1F47B,
     0x1F47D, 0x1F47E, 0x1F920, 0x1F443, 0x1F484, 0x1F488, 0x1F489, 0x1F48A]
    else if row == 11 then
    [0x1F48B, 0x1F442, 0x1F48D, 0x1F48E, 0x1F490, 0x1F494, 0x1F512, 0x1F9E9,
     0x1F4A1, 0x1F4A3, 0x1F4A4, 0x1F4A6, 0x1F4A8, 0x1F4A9, 0x2795, 0x1F4AF]
    else if row == 12 then
    [0x1F4B0, 0x1F4B3, 0x1F4B5, 0x1F4BA, 0x1F4BB, 0x1F4BC, 0x1F4C8, 0x1F4DC,
     0x1F4CC, 0x1F4CE, 0x1F4D6, 0x1F4FF, 0x1F4E1, 0x23F0, 0x1F4F1, 0x1F4F7]
    else if row == 13 then
    [0x1F50B, 0x1F50C, 0x1F6B0, 0x1F511, 0x1F514, 0x1F525, 0x1F526, 0x1F527,
     0x1F528, 0x1F529, 0x1F52A, 0x1F52B, 0x1F52C, 0x1F52D, 0x1F52E, 0x1F531]
    else if row == 14 then
    [0x1F5FD, 0x1F602, 0x1F607, 0x1F608, 0x1F911, 0x1F60D, 0x1F60E, 0x1F631,
     0x1F637, 0x1F922, 0x1F44D, 0x1F476, 0x1F680, 0x1F681, 0x1F682, 0x1F69A]
    else
    [0x1F691, 0x1F692, 0x1F693, 0x1F6F5, 0x1F697, 0x1F69C, 0x1F6A2, 0x1F6A6,
     0x1F6A7, 0x1F6A8, 0x1F6AA, 0x1F6AB, 0x1F6B2, 0x1F6BD, 0x1F6BF, 0x1F9F2]
  }

  lemma Codes0And1(row: nat, k: nat)
    requires 0 <= row <= 1 && k < 16
    ensures Row(row)[k] as int == CodePoints(row)[k]
  {
  }

  lemma Codes2And3(row: nat, k: nat)
    requires 2 <= row <= 3 && k < 16
    ensures Row(row)[k] as int == CodePoints(row)[k]
  {
  }

  lemma Codes4And5(row: nat, k: nat)
    requires 4 <= row <= 5 && k < 16
    ensures Row(row)[k] as int == CodePoints(row)[k]
  {
  }

  lemma Codes6And7(row: nat, k: nat)
    requires 6 <= row <= 7 && k < 16
    ensures Row(row)[k] as int == CodePoints(row)[k]
  {
  }

  lemma Codes8And9(row: nat, k: nat)
    requires 8 <= row <= 9 && k < 16
    ensures Row(row)[k] as int == CodePoints(row)[k]
  {
  }

  lemma Codes10And11(row: nat, k: nat)
    requires 10 <= row <= 11 && k < 16
    ensures Row(row)[k] as int == CodePoints(row)[k]
  {
  }

  lemma Codes12And13(row: nat, k: nat)
    requires 12 <= row <= 13 && k < 16
    ensures Row(row)[k] as int == CodePoints(row)[k]
  {
  }

  lemma Codes14And15(row: nat, k: nat)
    requires 14 <= row <= 15 && k < 16
    ensures Row(row)[k] as int == CodePoints(row)[k]
  {
  }

  /** Byte b is the symbol with this code point. */
  lemma EmojiIs(b: Byte)
    ensures EmojiOf(b) == CodePoints(b / 16)[b % 16]
  {
    hide Row, CodePoints;
    var row, k := b / 16, b % 16;
    if row < 2 { Codes0And1(row, k); }
    else if row < 4 { Codes2And3(row, k); }
    else if row < 6 { Codes4And5(row, k); }
    else if row < 8 { Codes6And7(row, k); }
    else if row < 10 { Codes8And9(row, k); }
    else if row < 12 { Codes10And11(row, k); }
    else if row < 14 { Codes12And13(row, k); }
    else { Codes14And15(row, k); }
  }

  // ---- Whole strings ------------------------------------------------------------------------

  function ByteOf(c: Rune): Option<Byte> {
    var i := Search(c);
    if 0 <= i < 256 && EmojiOf(i) == c then Some(i) else None
  }

  lemma ByteOfEmoji(b: Byte)
    ensures ByteOf(EmojiOf(b)) == Some(b)
  {
    hide Search, EmojiOf, Row;
    SearchInverts(b);
  }

  function ToEmoji(bytes: ByteString): (s: Text)
    ensures |s| == |bytes|
  {
    seq(|bytes|, i requires 0 <= i < |bytes| => EmojiOf(bytes[i]))
  }

  /** The bytes spelled by a string of symbols; none if one symbol is not in the table. */
  function FromEmoji(s: Text): Option<ByteString> {
    if s == [] then Some([])
    else
      match (ByteOf(s[0]), FromEmoji(s[1..]))
      case (Some(b), Some(rest)) => Some([b] + rest)
      case _ => None
  }

  lemma {:induction false} FromToEmoji(bytes: ByteString)
    ensures FromEmoji(ToEmoji(bytes)) == Some(bytes)
  {
    hide ByteOf, EmojiOf;
    if bytes != [] {
      ByteOfEmoji(bytes[0]);
      assert ToEmoji(bytes)[0] == EmojiOf(bytes[0]);
      assert ToEmoji(bytes)[1..] == ToEmoji(bytes[1..]);
      FromToEmoji(bytes[1..]);
      assert bytes == [bytes[0]] + bytes[1..];
    }
  }

  /** What is read is the string of its bytes: no two strings are read alike. */
  lemma {:induction false} ToFromEmoji(s: Text)
    requires FromEmoji(s).Some?
    ensures ToEmoji(FromEmoji(s).value) == s
  {
    if s != [] {
      FromEmojiHead(s);
      hide EmojiOf, ByteOf, FromEmoji;
      ToFromEmoji(s[1..]);
      var b, rest := ByteOf(s[0]).value, FromEmoji(s[1..]).value;
      EmojiOfByte(s[0]);
      assert ToEmoji([b] + rest) == [s[0]] + ToEmoji(rest);
    }
  }

  lemma FromEmojiHead(s: Text)
    requires s != [] && FromEmoji(s).Some?
    ensures ByteOf(s[0]).Some? && FromEmoji(s[1..]).Some?
    ensures FromEmoji(s).value == [ByteOf(s[0]).value] + FromEmoji(s[1..]).value
  {
    hide ByteOf;
  }

  lemma EmojiOfByte(c: Rune)
    requires ByteOf(c).Some?
    ensures EmojiOf(ByteOf(c).value) == c
  {
    hide EmojiOf, Search;
  }

  lemma AsciiIsNotEmoji(s: Text)
    requires s != [] && s[0] < 128
    ensures FromEmoji(s).None?
  {
    hide EmojiOf;
    if ByteOf(s[0]).Some? {
      EmojiIsForeign(ByteOf(s[0]).value);
    }
  }

  lemma Slices(s: Text, k: nat)
    requires 0 < k < |s|
    ensures s[..k + 1][1..] == s[1..][..k] && s[..k][1..] == s[1..][..k - 1] && s[1..][k - 1] == s[k]
  {
  }

  lemma {:induction false} FromEmojiSplit(s: Text, k: nat)
    requires k < |s|
    ensures FromEmoji(s[..k + 1]) ==
            match (FromEmoji(s[..k]), ByteOf(s[k]))
            case (Some(bytes), Some(b)) => Some(bytes + [b])
            case _ => None
  {
    hide ByteOf;
    var t := s[..k + 1];
    if k == 0 {
      assert t[1..] == [] && s[..0] == [];
      if ByteOf(s[0]).Some? {
        assert [ByteOf(s[0]).value] + [] == [] + [ByteOf(s[0]).value];
      }
    } else {
      Slices(s, k);
      FromEmojiSplit(s[1..], k - 1);
      var head, front, last := ByteOf(s[0]), FromEmoji(s[1..][..k - 1]), ByteOf(s[k]);
      if head.Some? && front.Some? && last.Some? {
        assert [head.value] + (front.value + [last.value]) == [head.value] + front.value + [last.value];
      }
    }
  }

  lemma {:induction false} FromEmojiPrefix(s: Text, k: nat)
    requires k <= |s| && FromEmoji(s[..k]).None?
    ensures FromEmoji(s).None?
    decreases |s| - k
  {
    hide *;
    if k == |s| {
      assert s[..k] == s;
    } else {
      FromEmojiSplit(s, k);
      FromEmojiPrefix(s, k + 1);
    }
  }

  /** The look-up loop of both address kinds: it stops at the first symbol not in the table. */
  method EmojiToBytes(table: map<Rune, Byte>, s: Text) returns (r: Option<ByteString>)
    requires forall b: Byte :: EmojiOf(b) in table && table[EmojiOf(b)] == b
    requires forall c :: c in table ==> c == EmojiOf(table[c])
    ensures r == FromEmoji(s)
  {
    hide Search, EmojiOf;
    var bytes: ByteString := [];
    for i := 0 to |s|
      invariant FromEmoji(s[..i]) == Some(bytes)
    {
      FromEmojiSplit(s, i);
      if s[i] !in table {
        assert ByteOf(s[i]).None?;
        FromEmojiPrefix(s, i + 1);
        return None;
      }
      ByteOfEmoji(table[s[i]]);
      bytes := bytes + [table[s[i]]];
    }
    assert s[..|s|] == s;
    r := Some(bytes);
  }
}
