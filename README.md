# Player clock sync and identity helpers

This project models two parts of the audio player's Raspberry Pi side (`ak_rpi`).

- **Clock synchronisation** (`ak_rpi/ntp.py`), in `ntp.dfy`, module `Ntp`.
  - One probe sends the player's clock reading to the server. It receives
    back the time the server received the request and the time it sent
    the response, plus the player's own time of receipt.
  - From these four timestamps it derives the one-way latency and the
    server's lead over the player, as in the on-wire calculation of
    section 8 of RFC 5905.
  - A sync run takes a fixed number of probes and keeps, in order, the
    offsets of the probes that succeeded. A failing request, or a successful
    response whose body is not JSON, raises out of the run and leaves the
    stored offset as it was. It then drops every offset whose distance from
    the mean is not strictly below the population variance of the offsets.
    The mean of what remains, truncated toward zero, is stored as the
    server time offset.
  - If no probe succeeded, or every offset is an outlier, the stored offset
    is left as it was.
  - Local time is the startup wall-clock time plus the monotonic ticks since
    startup. Server time is local time plus the stored offset.
  - The class `Ntp.NTP` holds the mutable offset. `Ntp.NTP.Sync` updates it
    in a loop over the probes.
- **Identity helpers** (`ak_rpi/utils.py`), in `utils.dfy`, module `Utils`.
  - The MAC address is the node number written in upper-case hex and cut
    into colon-separated pairs from the left.
  - The serial number is the stripped text between the first and second `:`
    of the first `/proc/cpuinfo` line that starts with `Serial`. A `Serial`
    line with no colon raises IndexError. When the file is missing or has no
    such line, the MAC address is used instead.
  - The IP address map sends each network interface to its last IPv4
    address.

`wrappers.dfy` holds the `Option` and `Result` datatypes.

What the environment supplies is passed in as parameters:

- the server's HTTP responses and the monotonic clock reading after each one;
- the startup wall-clock and monotonic times;
- the node number;
- the lines of `/proc/cpuinfo`, or `None` when the file is missing;
- the interface table.

Python floats are modelled as exact `real` numbers. `int()` of a float is
modelled as truncation toward zero.

The outlier threshold is the population variance, not the standard
deviation, and the final mean is truncated with `int()`, not rounded. For
offsets 100, 102, 98, 101 and 500 the variance is 25569.76, so no sample is
discarded and the result is 180; `Ntp.OutlierExampleStatistics` and
`Ntp.OutlierExample` prove this.

## Model

| member | source | states |
|---|---|---|
| Ntp.OnewayLatency | ak_rpi/ntp.py:93-99 | the one-way latency is negative exactly when the server's holding time exceeds the whole round trip |
| Ntp.Offset | ak_rpi/ntp.py:101-106 | the offset is half of (server receipt − player send) plus (server send − player receipt), the symmetric-delay estimate of the server's lead |
| Ntp.SymmetricDelayRecovery | ak_rpi/ntp.py:93-106 | when the server clock leads by θ and both legs take d ms, the computed offset is θ and the one-way latency is d. Conversely, timestamps with offset θ and latency d are exactly those produced by such a symmetric exchange |
| Ntp.ClockShift | ak_rpi/ntp.py:93-106 | shifting the player clock and the server clock by constants leaves the latency unchanged and moves the offset by their difference |
| Ntp.SquaredDeviations | ak_rpi/ntp.py:49 | every squared deviation from the mean is non-negative |
| Ntp.Variance | ak_rpi/ntp.py:49-51 | the population variance of a non-empty batch is non-negative |
| Ntp.VarianceZeroIff | ak_rpi/ntp.py:48-51 | the variance is zero exactly when every offset equals the mean |
| Ntp.Mean | ak_rpi/ntp.py:48 | the mean of a batch of equal samples is that sample |
| Ntp.SumAtLeast | ak_rpi/ntp.py:49 | a sum of n terms each at least lo is at least n·lo |
| Ntp.SumBetween | ak_rpi/ntp.py:48 | a sum of n terms within [lo, hi] lies within [n·lo, n·hi] |
| Ntp.SumStrictlyBetween | ak_rpi/ntp.py:58 | a non-empty sum of terms strictly between lo and hi lies strictly between n·lo and n·hi |
| Ntp.SumZeroOfNonNegative | ak_rpi/ntp.py:49 | non-negative terms that sum to zero are all zero |
| Ntp.SumPositive | ak_rpi/ntp.py:49 | non-negative terms with one positive term have a positive sum |
| Ntp.MeanBetween | ak_rpi/ntp.py:48 | the mean of values within [lo, hi] lies within [lo, hi] |
| Ntp.MeanStrictlyBetween | ak_rpi/ntp.py:58 | the mean of values strictly inside (lo, hi) lies strictly inside it |
| Ntp.KeepWithin | ak_rpi/ntp.py:52-54 | every value at distance strictly below the threshold from the centre keeps all its copies, and every other value has none |
| Ntp.KeepWithinMembers | ak_rpi/ntp.py:52-54 | the filtered list holds exactly the values within the threshold, and is a sub-multiset of the input |
| Ntp.NonOutliers | ak_rpi/ntp.py:52-54 | the non-outliers are exactly the offsets strictly closer to the mean than the variance, each with all its copies |
| Ntp.KeepWithinAll | ak_rpi/ntp.py:52-54 | when every value is within the threshold, the filter keeps the list unchanged |
| Ntp.TruncateTowardZero | ak_rpi/ntp.py:59 | `int()` of a float: the floor for non-negative values and the ceiling for negative values |
| Ntp.TruncateMonotone | ak_rpi/ntp.py:59 | truncation toward zero is monotone |
| Ntp.Aggregate | ak_rpi/ntp.py:45-60 | no new offset is produced exactly when there are no offsets or every offset is at least a variance away from the mean |
| Ntp.NoSpreadYieldsNothing | ak_rpi/ntp.py:49-57 | when all offsets are equal, the variance is zero, every sample counts as an outlier and no new offset is produced |
| Ntp.AggregateWithinSamples | ak_rpi/ntp.py:52-59 | a new offset lies within the truncated range of the sampled offsets |
| Ntp.AggregateNearMean | ak_rpi/ntp.py:48-59 | a new offset is less than variance + 1 away from the mean of all offsets |
| Ntp.SumAppend | ak_rpi/ntp.py:48 | the sum of a list with one more element grows by that element |
| Ntp.SumOfTwo | ak_rpi/ntp.py:48 | evaluation helper of `Ntp.TwoSampleExample`: the sum of a two-element list is the sum of its elements |
| Ntp.SumOfFive | ak_rpi/ntp.py:48 | evaluation helper of `Ntp.OutlierExampleStatistics`: the sum of a five-element list is the sum of its elements |
| Ntp.OutlierExampleStatistics | ak_rpi/ntp.py:48-51 | offsets 100, 102, 98, 101, 500 have mean 180.2 and variance 25569.76 |
| Ntp.OutlierExample | ak_rpi/ntp.py:52-60 | for those offsets no sample is an outlier and the new offset is 180 |
| Ntp.TwoSampleExample | ak_rpi/ntp.py:48-57 | offsets 0 and 1 have variance 0.25, both are outliers and no new offset is produced |
| Ntp.SyncCycle | ak_rpi/ntp.py:62-77 | a failing request raises RequestFailed; a 200 response whose body is not JSON raises ResponseNotJson; a non-200 status or an invalid body gives no offset; otherwise the offset is computed from the server's three stamps and the player's time of receipt |
| Ntp.Contributing | ak_rpi/ntp.py:43-44 | the positions of the probes that yield an offset, strictly increasing, each such probe listed |
| Ntp.NTP.constructor | ak_rpi/ntp.py:19-33 | a new synchroniser has offset 0 and records its startup times and cycle count |
| Ntp.NTP.LocalTime | ak_rpi/ntp.py:36-39 | local time is the startup time at the startup tick and never earlier than it afterwards |
| Ntp.NTP.ServerTime | ak_rpi/ntp.py:79-82 | server time is the startup time plus the offset at the startup tick, and ahead of local time exactly when the offset is positive |
| Ntp.NTP.LocalTimeFollowsTicks | ak_rpi/ntp.py:36-39 | local time equals the startup time at startup and advances one-for-one with the monotonic clock |
| Ntp.NTP.ServerTimeFollowsTicks | ak_rpi/ntp.py:79-82 | server time is local time plus the stored offset and advances with the monotonic clock |
| Ntp.NTP.Collect | ak_rpi/ntp.py:43-44 | collecting fails exactly when some probe raises. Otherwise there are at most as many offsets as probes, and none exactly when no probe contributes |
| Ntp.NTP.CollectOffsets | ak_rpi/ntp.py:43-44 | the collected offsets are, in order, the offsets the cycles of the contributing probes yield: one per contributing probe and nothing else |
| Ntp.NTP.OffsetsOfExtend | ak_rpi/ntp.py:43-44 | one more cycle keeps the earlier pairing of offsets to probes, and appends its own offset when it yields one |
| Ntp.NTP.CollectFirstFailure | ak_rpi/ntp.py:43 | a run fails with the error of the first cycle that raises |
| Ntp.NTP.Sync | ak_rpi/ntp.py:41-60 | a raising probe makes the run fail with the error of the first raising cycle and leaves the offset unchanged. Otherwise the new offset is the aggregate of the collected offsets, or the old one if there is none, and it is returned. Afterwards server time is local time plus the result |
| Utils.Split | ak_rpi/utils.py:31 | `str.split` gives at least one piece, and exactly one when the separator does not occur |
| Utils.SplitConcat | ak_rpi/utils.py:31 | a separator-free prefix joins the first piece of what follows |
| Utils.SplitAfterSeparator | ak_rpi/utils.py:31 | a leading separator yields an empty first piece |
| Utils.SplitSecondPiece | ak_rpi/utils.py:31 | after a separator-free key and one colon, the second piece is the first piece of the rest |
| Utils.SplitFirstPiece | ak_rpi/utils.py:31 | a separator-free value followed by nothing or by a colon is the first piece |
| Utils.RemoveAll | ak_rpi/utils.py:15 | `replace(pat, "")` never lengthens the text |
| Utils.RemoveAllKept | ak_rpi/utils.py:15 | what `replace(pat, "")` leaves is a sub-multiset of the input, and a one-character pattern leaves no occurrence |
| Utils.RemoveAllAbsent | ak_rpi/utils.py:15 | `replace(pat, "")` leaves a string that lacks the pattern's last character unchanged |
| Utils.RemoveCharConcat | ak_rpi/utils.py:15 | removing a single character distributes over concatenation |
| Utils.Upper | ak_rpi/utils.py:15 | `upper()` keeps the length, maps each lower-case ASCII letter to the matching upper-case letter and keeps every other character |
| Utils.Strip | ak_rpi/utils.py:31 | `strip()` shortens the string, leaves no whitespace at either end, and is empty exactly when the input is all whitespace |
| Utils.LowerHexDigits | ak_rpi/utils.py:15 | the digits `hex()` writes are non-empty lower-case hex characters |
| Utils.PyHex | ak_rpi/utils.py:15 | `hex(n)` is `0x` followed by at least one lower-case hex digit |
| Utils.UpperHexDigits | ak_rpi/utils.py:15 | the hex digits of a number are non-empty and all upper-case hex characters |
| Utils.UpperHexDigitsRoundTrip | ak_rpi/utils.py:15 | reading the digits back gives the node number, with no leading zero for non-zero numbers |
| Utils.UpperOfLowerHexDigits | ak_rpi/utils.py:15 | upper-casing Python's lower-case hex digits gives the upper-case digits |
| Utils.LowerHexDigitsNoX | ak_rpi/utils.py:15 | Python's hex digits contain no `x`, so removing `0x` only strips the prefix |
| Utils.MacDigits | ak_rpi/utils.py:15 | `hex(node).replace("0x", "").upper()` is the upper-case hex numeral of the node number |
| Utils.Chunks | ak_rpi/utils.py:16 | the slices taken every two characters: ⌈n/2⌉ of them, the i-th being characters 2i to 2i+2 |
| Utils.ChunkSizes | ak_rpi/utils.py:16 | every chunk has two characters except possibly the last, which has one when the length is odd |
| Utils.FormatMac | ak_rpi/utils.py:16 | up to two digits are kept as they are; longer input starts with its first pair and a colon |
| Utils.FormatMacStep | ak_rpi/utils.py:16 | joining the pairs is the first pair, a colon, then the rest joined |
| Utils.FormatMacChars | ak_rpi/utils.py:16 | the joined string has only input characters and colons |
| Utils.FormatMacHex | ak_rpi/utils.py:15-16 | formatting hex digits gives only hex digits and colons |
| Utils.FormatMacRemoveColons | ak_rpi/utils.py:16 | removing the colons from the joined pairs gives back the digits |
| Utils.FormatMacGroups | ak_rpi/utils.py:16 | splitting the joined pairs at colons gives back the pairs |
| Utils.GetMacAddress | ak_rpi/utils.py:9-17 | the MAC address without colons is the node's upper-case hex numeral and contains only hex digits and colons. Its colon groups are the pairs from the left, all of two characters except possibly a single-character last one |
| Utils.SerialField | ak_rpi/utils.py:31 | `line.split(":")[1].strip()` raises IndexError exactly when the line has no colon |
| Utils.SerialFieldBetweenColons | ak_rpi/utils.py:31 | for `key:value` followed by nothing or another colon, the field is the stripped value: the text between the first and second colon |
| Utils.GetSerialNumber | ak_rpi/utils.py:20-35 | a missing file or one with no `Serial` line gives the MAC address. Otherwise the result is the field of the first `Serial` line, including its IndexError |
| Utils.LastIPv4 | ak_rpi/utils.py:46-48 | there is no IPv4 address exactly when no entry has family AF_INET. Otherwise the address is that of an AF_INET entry with no AF_INET entry after it |
| Utils.GetIpAddresses | ak_rpi/utils.py:38-49 | the map holds exactly the interfaces that have an IPv4 entry, each mapped to its last IPv4 address |

## Left out

- Ntp.NTP.Sync: it takes the probes' outcomes as a list of exactly `n_cyles` entries instead of calling the client in a loop. The player's clock reading sent with each request is not modelled, because it does not enter the offset.
- Logging, the pydantic model machinery, and `monotonic_time_ms`/`time.time`, whose readings are parameters.
- The HTTP client (`ak_rpi/client.py`): each `get_sync` call is given as its outcome, either a response or a raised transport error (connection failure or timeout); which exception class is raised is not distinguished.
- Float rounding: offsets and means are exact reals, so results that differ only by binary floating-point error are not distinguished.
- Ntp.SyncCycle: a JSON body that is not an object, or that already carries a `resReceivedAt` field, makes the keyword-argument call raise a TypeError. This case is not distinguished from the not-JSON case, since both propagate out of `sync` uncaught.
- Utils.GetSerialNumber: read errors other than a missing file are not modelled, because the source does not handle them either.
- Utils.Upper: only ASCII letters are upper-cased. Hex digits need nothing more.
- Utils.Strip: the full set of characters that Python's `str.isspace` accepts is listed, but its result is not proved to be a contiguous slice of the input.
- `ak_rpi/audio.py`, `ak_rpi/player.py`, `ak_rpi/errors.py` and `ak_rpi/main.py` are not part of this model.
