# Avatar colour and label of the Gov Hub customer client

The Gov Hub customer client shows each department or user as an avatar
(`src/Components/AvatarIcon.js`). The avatar's background colour comes from
the name. `stringToColor` runs a multiply-by-31 string hash over the name's
UTF-16 code units. It then writes `#` and the three low bytes of the hash,
each as two lower-case hexadecimal digits. The first group is the LOWEST
byte, so the string looks like `#rrggbb` but is really `#<byte0><byte1><byte2>`.
`stringAvatar` picks one of two layouts on `type`. In both layouts the
background is `stringToColor(name)` and the label is the name's first three
code units followed by `...`.

The project has two modules.

- `JsOps` (`js_ops.dfy`) states the ECMAScript operations the code relies on,
  on mathematical integers: ToInt32, ToUint32, `<<`, `>>`, `&`,
  `Number.prototype.toString(16)`, `String.prototype.slice` and
  `String.prototype.substring`. Each carries the property that defines it: a
  congruence modulo 2^32, a floor division, a mask that keeps the low k bits,
  a hexadecimal numeral that reads back to its number.
- `AvatarIcon` (`avatar_icon.dfy`) models the component.
  - `StringToColor` is a method with the source's two loops. The first loop
    keeps `hash` as an exact integer and wraps only where `<<` wraps.
  - Its result is `StringColor(s)`: the colour of the polynomial hash
    `PolyHash(s)` = Σ s[k]·31^(n-1-k).
  - `HashIsPolynomial` proves that the loop's `hash` agrees with `PolyHash`
    modulo 2^32. `HashMagnitude` proves that `hash` stays within 2^53 for
    names of at most 2^21 code units, so treating Numbers as integers is
    exact there.
  - `StringAvatar` is the pure `stringAvatar`. A function cannot call a
    method, so it takes its colour from `StringColor`, the function that
    `StringToColor` is proved equal to.

A JavaScript string is a `seq<CodeUnit>` with code units in [0, 65535].
Dafny's `char` excludes surrogates, and `charCodeAt` and `substring` work on
code units, lone surrogates included. The colour is ASCII and is a Dafny
`string`.

## Model

| member | source | states |
|---|---|---|
| `AvatarIcon.StringToColor` | src/Components/AvatarIcon.js:6-24 | the result is the colour of the polynomial hash of the name (so equal names always get equal colours and nothing but the name is read); the empty name gives `#000000` |
| `AvatarIcon.HashIsPolynomial` | src/Components/AvatarIcon.js:11-13 | after the hash loop, `hash` equals Σ code(s[k])·31^(n-1-k) modulo 2^32 |
| `AvatarIcon.HornerStep` | src/Components/AvatarIcon.js:12 | appending one code unit c turns the polynomial hash P into 31·P + c, which is the loop's recurrence |
| `AvatarIcon.ShiftLeftFive` | src/Components/AvatarIcon.js:12 | `hash << 5` has the 32-bit pattern of 32·hash, whatever the size of `hash` |
| `AvatarIcon.HashMagnitude` | src/Components/AvatarIcon.js:11-13 | the unwrapped `hash` stays within n·2^32 after n code units, and within 2^53 when n ≤ 2^21 |
| `AvatarIcon.ExtractByte` | src/Components/AvatarIcon.js:18 | `(hash >> (i * 8)) & 0xff` is bits 8i..8i+7 of the hash's 32-bit pattern for i < 4, for negative hashes too |
| `AvatarIcon.PaddedHexByte` | src/Components/AvatarIcon.js:19 | for a byte b, `` `00${b.toString(16)}`.slice(-2) `` is exactly the two hex digits of b/16 and b%16 |
| `AvatarIcon.ColorLayout` | src/Components/AvatarIcon.js:15-20 | the colour is `#` followed by bytes 0, 1 and 2 of the hash, two hex digits each, lowest byte first |
| `AvatarIcon.ColorShape` | src/Components/AvatarIcon.js:15-20 | every colour has length 7, starts with `#`, and has six lower-case hex digits after it |
| `AvatarIcon.ColorDecodes` | src/Components/AvatarIcon.js:17-20 | reading the three two-digit groups back gives bytes 0, 1 and 2 of the hash, each in [0, 255] |
| `AvatarIcon.Low24Bytes` | src/Components/AvatarIcon.js:17-19 | the three bytes the colour shows make up the hash modulo 2^24 |
| `AvatarIcon.ColorDeterminedByLow24` | src/Components/AvatarIcon.js:17-19 | two hashes give the same colour if and only if they agree modulo 2^24 |
| `AvatarIcon.ColorOfPattern` | src/Components/AvatarIcon.js:18 | hashes with the same 32-bit pattern give the same colour, so the loop's unwrapped `hash` and the polynomial hash give one colour |
| `AvatarIcon.StringAvatar` | src/Components/AvatarIcon.js:26-54 | the chip layout is chosen exactly when `type` is `"name"`; in both layouts the background is the name's colour and the label is the first min(3, length) code units followed by `"..."` |
| `JsOps.ToInt32` | src/Components/AvatarIcon.js:12 | the operand conversion of `<<`, `>>` and `&`: the result is a signed 32-bit value congruent to the input modulo 2^32, and int32 inputs are unchanged |
| `JsOps.ToUint32` | src/Components/AvatarIcon.js:18 | the result is the unsigned 32-bit value congruent to the input modulo 2^32 |
| `JsOps.ShiftCount` | src/Components/AvatarIcon.js:12 | the shift count is below 32 and equals the operand for operands 0..31 |
| `JsOps.ShiftLeft` | src/Components/AvatarIcon.js:12 | `x << n` is a signed 32-bit value congruent to x·2^(n mod 32) modulo 2^32 |
| `JsOps.ShiftRight` | src/Components/AvatarIcon.js:18 | `x >> n` is the signed 32-bit value of x divided by 2^(n mod 32), rounded toward negative infinity |
| `JsOps.AndNat` | src/Components/AvatarIcon.js:18 | the bitwise AND of two naturals is at most each of them |
| `JsOps.BitAnd` | src/Components/AvatarIcon.js:18 | `a & b` is a signed 32-bit value; with a non-negative int32 mask it lies between 0 and the mask |
| `JsOps.AndLowMask` | src/Components/AvatarIcon.js:18 | ANDing with 2^k − 1 keeps the value modulo 2^k |
| `JsOps.LowByteMask` | src/Components/AvatarIcon.js:18 | `x & 0xff` is x modulo 256 |
| `JsOps.HexDigit` | src/Components/AvatarIcon.js:19 | the radix-16 digit for d < 16 is a lower-case hex digit whose value is d |
| `JsOps.ToHexString` | src/Components/AvatarIcon.js:19 | `n.toString(16)` is a non-empty lower-case hex numeral with no leading zero that reads back to n |
| `JsOps.Slice` | src/Components/AvatarIcon.js:19 | `s.slice(start)` is the suffix of s whose length the (negative-from-the-end, clamped) start gives |
| `JsOps.Substring` | src/Components/AvatarIcon.js:37 | `s.substring(0, n)` for n ≥ 0 (as at lines 37 and 51) is the first min(n, length) code units, in either argument order |

## Left out

- The React and MUI rendering (`<Avatar>`, the JSX `children` element, the `sx` sizes, fonts, margins and border radius) is library presentation. `AvatarIcon.StringAvatar` keeps only the layout choice, the background colour and the label text.
- `name` that is not a string (for example `undefined`) makes the component throw a TypeError. The model takes a string.
- `type` that is not a string behaves like any string other than `"name"` and gets the banner layout. The model takes a string.
- `AvatarIcon.StringToColor`: for names longer than 2^21 code units, `hash` can pass 2^53 and double-precision rounding could change the result. The model keeps exact integers there.
- `JsOps.ShiftLeft`, `JsOps.ShiftRight`, `JsOps.BitAnd`, `JsOps.ToInt32`, `JsOps.ToUint32`: only integral operands are modelled. NaN, infinities and fractions never reach these operators here.
- `JsOps.ToHexString`: only non-negative integers are modelled. The bytes it is applied to are in [0, 255].
- `JsOps.Slice`, `JsOps.Substring`: only integral arguments are modelled, and `substring` always gets both arguments.
- The theme, layout, navigation and preloader files (`src/theme/TableTheme.js`, `src/Layout/SideBar.js`, `src/Layout/TopNavBar.js`, `src/Components/NavItem.js`, `src/Components/Preloader.js`) hold style constants, markup and a router path comparison. They have no behaviour to state.
- `src/App.js` clears browser storage on first load and shows a preloader on a two-second timer. Both are browser storage and timers, and the rest is route wiring.
- The appointment-form validation, HTTP calls and ticket polling in `src/Ticket App/AddTicket.js`, `src/Ticket App/EditTicket.js` and the other screens are not part of this model.
