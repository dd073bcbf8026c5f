# libyuv: planes, comparison and MJPEG cropping, verified

A Dafny model of the integer and buffer code of libyuv, with proofs. It covers the code that walks
images through raw pointers, keeps tables in recycled memory, or counts in registers that could
overflow:

* transposing and rotating planes, from the unpack network of the SSSE3 kernel up to whole NV12
  images, including half turns in place;
* the box blur over a summed-area table that keeps only `2 * radius + 2` rows, with its single-precision
  quotients;
* the Gaussian and Sobel filters and their sliding windows of rows;
* the comparison functions: djb2 hash, Hamming distance, squared error and PSNR, SSIM, each with
  its vector kernels where the arithmetic is delicate;
* cropped decoding of MJPEG frames, row by row into buffers or chunk by chunk through a callback,
  and the check for a complete JPEG.

Memory is an array and a pointer is an index into it; a plane is an index and a stride, which may be
negative (`views.dfy`). The central notion is `Copied`: one rectangle of memory was made from
another, cell for cell, and every other address is as it was. Loops and kernels are methods proved
against that or against a function of the pixels; the laws about images are lemmas over those
functions. Bytes are small integers, except in `popcount.dfy` and `hamming.dfy`, whose kernels mask and
shift them and where they are bit-vectors. The single-precision quotient of the blur is exact: integers
and powers of two, rounded to nearest, ties to even, as in IEEE 754-2008, section 4.3.1. The standard behind the JPEG code is ITU-T T.81: sampling factors and MCUs as in sections
A.1.1 and A.2, markers as in section B.1.1.3.

| file | source it follows |
|---|---|
| `views.dfy`, `rows.dfy`, `planar.dfy` | pointer arithmetic, row kernels, whole-plane copies |
| `rotate_kernels.dfy`, `rotate.dfy`, `rotate_uv.dfy`, `rotate_argb.dfy` | rotate_common.cc, rotate_gcc.cc, rotate_any.cc, rotate.cc, rotate_argb.cc |
| `float32.dfy`, `blur.dfy`, `edges.dfy`, `gauss.dfy`, `sobel.dfy` | planar_functions.cc and its row kernels |
| `hash.dfy`, `popcount.dfy`, `hamming.dfy`, `counters.dfy`, `sse.dfy`, `ssim.dfy` | compare.cc, compare_common.cc, compare_gcc.cc, compare_neon64.cc |
| `mjpeg_rows.dfy`, `mjpeg_i420.dfy`, `mjpeg_crop.dfy`, `jpeg_validate.dfy` | mjpeg_decoder.cc, convert_jpeg.cc, mjpeg_validate.cc |

## Where the code and its documentation differ

The model follows the code.

* `ARGBBlur` promises a box of `radius` pixels around each pixel. Its box starts one past the clipped
  left column and upper row, so near the left and upper border the first column or row is left out.
  `Blur.BoxIsCentred` gives the exact condition and `Blur.CornerLeftOut` the smallest example.
  With a single row the area is zero; `Blur.BoxNotEmpty` says that this is the only case.
* The blur multiplies with a rounded reciprocal, so a flat area can turn darker. `Blur.BlurBetween`
  bounds what can happen, `Float32.FlatKept` says exactly which areas keep every value, and
  `Blur.FlatDarkened` is an image on which it happens.
* A crop that ends inside the first, partly skipped iMCU row is delivered with more rows than were
  asked for. `MjpegCrop.CropDelivered` gives the exact condition, `MjpegCrop.FourRowsWanted` a frame
  on which it happens.
* A crop that begins on an odd line fails an assertion. Built without assertions the code goes on, and
  `MjpegI420.ChromaRows` says exactly when it hands over one chroma row too many;
  `MjpegCrop.NinthChromaRow` is a frame on which that row is written behind the image.
* PSNR is limited to 128, which is also the answer for identical images. `SquaredError.PsnrLimit` gives
  the exact size up to which that answer means equality, `SquaredError.LargeImage` two different images
  beyond it.
* `TransposePlane` accepts a width of zero, but the SSSE3 kernel tests its counter only after the work.
  `Rotate.OnlyPromised` gives the exact condition, `Rotate.TransposeNothing` a run that shows it.
* Planes without gaps are taken as one row whose length is the int product of width and height.
  `Planar.CoalescedRight` and `SquaredError.CoalescedRight` give the exact limit.
* The comment on the NEON Hamming kernel allows 131 KB, the one on its caller less than 65536 bytes.
  `Hamming.NeonLimit` shows that the second is the exact limit; the caller's blocks of 32768 are safe.
* `CalcFrameSsim` looks at no window at all when either side is at most eight pixels and then divides
  zero by zero; for `I420Ssim` that happens up to sixteen pixels. Its windows never reach the last column
  or the last row (`Ssim.WindowsCover`, `Ssim.LastColumnUnseen`).

## Model

| member | source | states |
|---|---|---|
| TransposeKernels.TransposeWx8C | libyuv-master/source/rotate_common.cc:19-37 | eight source rows become eight destination columns, cell for cell; nothing outside that rectangle changes; any strides, any width including none |
| TransposeKernels.UnpackNetwork | libyuv-master/source/rotate_gcc.cc:37-97 | three rounds of byte, word and double-word unpacking with half swaps turn eight row registers into four registers that each hold two source columns end to end |
| TransposeKernels.TransposeWx8Ssse3 | libyuv-master/source/rotate_gcc.cc:24-109 | for every positive multiple of 8 the register program writes exactly the rectangle that the C kernel writes; for a width of zero, which it tests only after the work, one whole tile |
| TransposeKernels.TransposeTile | libyuv-master/source/rotate_gcc.cc:33-101 | one pass transposes a tile of eight by eight; the source pointer ends eight columns further right, having gone eight rows down and back, the destination pointer eight rows further down |
| TransposeKernels.TransposeWx8AnySsse3 | libyuv-master/source/rotate_any.cc:21-30 | vector part and C remainder together transpose every width, each writing its own destination rows |
| TransposeKernels.TransposeWxHC | libyuv-master/source/rotate_common.cc:70-83 | transposes a rectangle of any height, cell for cell, and touches nothing else |
| Rotate.TransposePlane | libyuv-master/source/rotate.cc:25-97 | bands of eight rows, column remainder and row remainder together put source (i, j) at destination (j, i) and leave every other byte, for every width and height and for negative strides; for a width of zero the vector kernel does one tile in each band |
| Rotate.OnlyPromised | libyuv-master/source/rotate.cc:85-96 | in any memory, a transpose leaves every byte outside the destination image as it was, if and only if the width is not zero, there are fewer than eight rows or the C kernel runs |
| Rotate.TransposeNothing | libyuv-master/source/rotate_gcc.cc:24-109 | an empty image of eight rows on which the vector kernel overwrites the destination all the same |
| Rotate.RotatePlane90 | libyuv-master/source/rotate.cc:100-112 | destination is the source turned a quarter clockwise (via a bottom-up source), for every width; for a width of zero, what TransposePlane does |
| Rotate.RotatePlane270 | libyuv-master/source/rotate.cc:115-127 | destination is the source turned three quarters clockwise (via a bottom-up destination); for a width of zero the tiles of TransposePlane land above the destination |
| Rotate.RotatePlane180 | libyuv-master/source/rotate.cc:130-221 | destination is the source as it was, turned by half, both for two buffers and fully in place; even and odd heights, any width including none |
| Rotate.TurnRows | libyuv-master/source/rotate.cc:210-219 | one step of the half turn: whatever the first of the two row writes leaves on the middle row, the second decides it; the rows between the two ends stay as they were |
| Rotate.TurnStep | libyuv-master/source/rotate.cc:210-219 | the row pair written by the loop body extends the turned part by one row at each end, even when the source rows read are the destination's own |
| Rotate.SwapRows | libyuv-master/source/rotate.cc:212-214 | the last of the three row moves is right even where an overlapping row mirror leaves arbitrary bytes |
| RotateARGB.ARGBSwapRows | libyuv-master/source/rotate_argb.cc:189-191 | the other save order (mirror into the buffer, copy out of it) has the same effect |
| RotateARGB.ARGBRotate180 | libyuv-master/source/rotate_argb.cc:110-199 | half turn of whole pixels, between buffers or in place |
| RotateARGB.ScaleARGBRowDownEven | libyuv-master/source/scale_common.cc:928-946 | every step-th pixel, two at a time and an odd last one, for any step |
| RotateARGB.ARGBTranspose | libyuv-master/source/rotate_argb.cc:24-78 | refuses a source stride that is no multiple of four; otherwise pixel (i, j) goes to (j, i) and nothing else changes |
| RotateARGB.ARGBRotate90 | libyuv-master/source/rotate_argb.cc:80-93 | quarter turn of whole pixels, or the refusal |
| RotateARGB.ARGBRotate270 | libyuv-master/source/rotate_argb.cc:95-108 | three quarter turns of whole pixels, or the refusal |
| RotateARGB.ARGBRotate | libyuv-master/source/rotate_argb.cc:202-238 | result code for every argument, and the rotated image for each mode and sign of the height, in place where that is possible |
| RotateARGB.AcceptedWhen | libyuv-master/source/rotate_argb.cc:202-238 | what is accepted, in full |
| Rotate.RotatePlane | libyuv-master/source/rotate.cc:382-418 | result code for every argument, and the rotated image for each mode; a negative height is a vertical flip before the rotation |
| Rotate.RotatedAt | libyuv-master/source/rotate.cc:382-418 | which source pixel each mode puts at (x, y): clockwise rotation |
| Rotate.RotationsAdd | libyuv-master/source/rotate.cc:100-221 | rotating twice is rotating by the sum of the angles, the dimensions swapping as they should |
| Rotate.RotationsChain | libyuv-master/source/rotate.cc:382-418 | any finite chain of rotations is the rotation by its total angle modulo four quarter turns |
| Rotate.FlipReversesTurns | libyuv-master/source/rotate.cc:393-398 | the dihedral relation: flipping then turning one way is turning the other way then flipping |
| Rotate.RotateTwice | libyuv-master/source/rotate.cc:382-418 | the same law on memory: two calls through an intermediate buffer leave what one call with the summed angle leaves |
| Rotate.RotatedBounds | libyuv-master/source/rotate.cc:382-418 | a rotated rectangle lies inside memory when the rectangle does |
| Rows.CopyRow | libyuv-master/source/row_common.cc:2965-2967 | the row is copied, nothing else written |
| Rows.MirrorRow | libyuv-master/source/row_common.cc:2583-2594 | the row is reversed when the two rows are apart; when they overlap only the destination row is written |
| Rows.SplitUVRow | libyuv-master/source/row_common.cc:2656-2672 | even bytes go to U, odd ones to V |
| Rows.MirrorSplitUVRow | libyuv-master/source/row_common.cc:2607-2624 | the same with the order reversed |
| Planar.CopyPlane | libyuv-master/source/planar_functions.cc:30-82 | the plane is copied whether or not its rows can be taken as one run; a negative height turns the destination over, which is the same as reading the source bottom up; a copy onto itself changes nothing |
| Planar.CoalescedRight | libyuv-master/source/planar_functions.cc:44-49 | with the product of width and height kept as an int, one long row is the plane in every memory if and only if the plane has fewer than 2^31 cells; also for interleaved sources |
| Planar.SplitUVPlane | libyuv-master/source/planar_functions.cc:403-477 | both chroma planes, with the same freedom |
| Planar.I420Copy | libyuv-master/source/convert.cc:70-108 | result code and three planes for every sign of the height; a missing luma destination leaves out the luma only |
| Planar.HalfRoundsUp | libyuv-master/source/convert.cc:84-85 | an odd row or column of luma keeps its chroma |
| Planar.UprightAt | libyuv-master/source/convert.cc:88-98 | which row a negative height means |
| Planar.NV12ToI420 | libyuv-master/source/convert.cc:854-903 | likewise from interleaved chroma |
| Views.CopiedFlat | libyuv-master/source/planar_functions.cc:44-49 | copying one long row of width * height cells is copying the rectangle row by row |
| Views.CopiedFlipped | libyuv-master/source/planar_functions.cc:38-43 | filling a destination from its last row upwards is reading the source bottom up |
| Views.CopiedUnique | libyuv-master/source/planar_functions.cc:30-82 | two results that are copies of the same rectangle into the same memory are equal as whole memories |
| Views.StackRows | libyuv-master/source/rotate.cc:85-96 | copies of successive bands of rows add up to the copy of the whole, later bands leaving earlier ones alone |
| Views.StackColumns | libyuv-master/source/rotate_any.cc:21-30 | the same for bands of columns |
| Views.PlaneDistinct | libyuv-master/source/rotate.cc:25-97 | rows at least a width apart, up or down, share no address |
| RotateUV.TransposeUVWx8C | libyuv-master/source/rotate_common.cc:39-68 | interleaved rows become columns of two planes |
| RotateUV.TransposeUVWxHC | libyuv-master/source/rotate_common.cc:85-101 | the same for the row remainder |
| RotateUV.TransposeUV | libyuv-master/source/rotate.cc:224-300 | tiles and remainder together transpose and split the chroma at every size |
| RotateUV.RotateUV90 | libyuv-master/source/rotate.cc:303-316 | quarter turn of split chroma |
| RotateUV.RotateUV270 | libyuv-master/source/rotate.cc:319-334 | three quarter turns of split chroma |
| RotateUV.RotateUV180 | libyuv-master/source/rotate.cc:338-379 | half turn of split chroma, rows written last to first |
| RotateUV.NV12ToI420Rotate | libyuv-master/source/rotate.cc:549-604 | result code for every argument, and the three rotated planes for every mode, odd or even size and sign of the height |
| RotateUV.BothFlipped | libyuv-master/source/rotate.cc:566-573 | a copy is also a copy when both rectangles are read from the bottom |
| RotateUV.PlaneEitherWay | libyuv-master/source/rotate.cc:549-604 | for one plane, copying first and turning the copy makes the same promise as turning directly, whatever the mode and the sign of the height |
| RotateUV.SplitThenRotate | libyuv-master/source/rotate.cc:549-604 | splitting an NV12 image first and rotating its three planes ends in the same memory as rotating it directly, for every mode, size and sign of the height |
| RotateUV.SplitThenRotatePlanes | libyuv-master/source/rotate.cc:382-418 | the same in calls: NV12ToI420 into temporary planes and RotatePlane on each of them keep the very contract of NV12ToI420Rotate |
| Blur.ComputeCumulativeSumRow | libyuv-master/source/row_common.cc:3268-3284 | each entry is the running sum of its row plus the entry above, in 32-bit arithmetic |
| Blur.ARGBComputeCumulativeSum | libyuv-master/source/planar_functions.cc:3510-3543 | slot y holds, modulo 2^32, the sum of everything above and to the left of each entry, for each of the four channels; nothing outside the slots of the rows built changes |
| Blur.SlotWritten | libyuv-master/source/planar_functions.cc:3606-3635 | writing one slot of the ring changes nothing but the slots |
| Blur.FourCorners | libyuv-master/source/row_common.cc:3295-3298 | four corners of the prefix table give the sum over a box |
| Blur.WrapCorners | libyuv-master/source/row_common.cc:3295-3298 | the four-corner difference is right modulo 2^32 whatever the entries wrapped to |
| Blur.CumulativeSumToAverageRow | libyuv-master/source/row_common.cc:3286-3303 | each byte is the single-precision product of its four-corner difference with the rounded reciprocal of the area, truncated; the pixels are written once each, from the left |
| Blur.NegativeSums | libyuv-master/source/row_common.cc:3295-3298 | truncation is toward zero: a negative sum leaves the low byte of the negative mean |
| Blur.BlurRow | libyuv-master/source/planar_functions.cc:3637-3657 | the left, middle and right phases write columns 0 .. width - 1 in this order, each once, and nothing else; each comes from its own clipped box, divided by the area of that box although the area is kept incrementally |
| Blur.LiveNext | libyuv-master/source/planar_functions.cc:3626-3635 | refilling a slot of the ring destroys no row that is still needed |
| Blur.SlotModApart | libyuv-master/source/planar_functions.cc:3606-3635 | rows less than 2 * radius + 2 apart live in different slots |
| Blur.AdvanceTop | libyuv-master/source/planar_functions.cc:3617-3623 | the top pointer is slot top_y modulo 2 * radius + 2 after every step |
| Blur.FillNextRow | libyuv-master/source/planar_functions.cc:3624-3635 | the bottom pointer is slot bot_y modulo 2 * radius + 2 and holds the full prefix sums of that row; the rest of the table stays |
| Blur.AdvanceRing | libyuv-master/source/planar_functions.cc:3610-3635 | both pointers stand on the rows the box of output row y needs, and all rows between them are live |
| Blur.BlurRows | libyuv-master/source/planar_functions.cc:3598-3661 | every output byte is the single-precision mean of its channel over the clipped box, truncated; only the destination rectangle changes; only the first min(height, 2 * radius + 2) slots are touched |
| Blur.ARGBBlur | libyuv-master/source/planar_functions.cc:3550-3661 | succeeds exactly for two buffers, a width of at least four, a height and a positive radius; the radius used is the largest one up to that asked for that is no more than the height and for which 2 * radius + 2 columns fit the width; then that result and that limit on the table for every sign of the height; otherwise nothing changes |
| Blur.RadiusLargest | libyuv-master/source/planar_functions.cc:3578-3586 | the clamps leave the largest usable radius, so the radius asked for is used if and only if it is at most the height and 2 * radius + 2 columns fit the width |
| Blur.BoxNotEmpty | libyuv-master/source/planar_functions.cc:3610-3612 | the area is never zero, exactly when the image has at least two rows |
| Blur.BoxIsCentred | libyuv-master/include/libyuv/planar_functions.h:891-896 | the averaged box is the promised box of radius pixels around the centre if and only if the pixel is more than radius away from column 0 and row 0; elsewhere it is a part of it |
| Blur.CornerLeftOut | libyuv-master/include/libyuv/planar_functions.h:891-896 | the smallest image on which the promise fails |
| Blur.BlurBetween | libyuv-master/source/row_common.cc:3286-3303 | a blurred byte is never above the brightest pixel of its box and at most one below the darkest, whenever the box sum fits in 32 bits, even if table entries wrapped; for boxes of at most 32896 pixels it is the truncated mean, or one less and then only if the area divides the sum, and it is below the darkest pixel only if the box is flat |
| Blur.FlatStays | libyuv-master/source/row_common.cc:3291-3298 | a flat box keeps its value if its area has a good enough reciprocal |
| Blur.FlatDarkened | libyuv-master/source/row_common.cc:3291-3298 | a flat image of 12 by 6 pixels of value 1, blurred with radius 5, turns black at pixel (6, 0) |
| Float32.RoundIsNearest | libyuv-master/source/row_common.cc:3291-3298 | rounding to single precision gives a number of 24 digits, and no number of 24 digits is nearer |
| Float32.TiesToEven | libyuv-master/source/row_common.cc:3291-3298 | halfway between two neighbours the one with the even significand is taken |
| Float32.ConvertedFirst | libyuv-master/source/row_common.cc:3291-3298 | sum and area count only as far as single precision holds them |
| Float32.ReciprocalDigits | libyuv-master/source/row_common.cc:3291 | the rounded reciprocal has a significand of 24 digits |
| Float32.QuotientNear | libyuv-master/source/row_common.cc:3291-3298 | for sums below 2^23, the product with the rounded reciprocal truncates to the exact quotient, or to one less and then only if the area divides the sum |
| Float32.QuotientBetween | libyuv-master/source/row_common.cc:3291-3298 | whatever the size of sum and area, a mean between two bytes lo and hi is never answered above hi or more than one below lo |
| Float32.FlatKept | libyuv-master/source/row_common.cc:3291-3298 | for areas of at most 32896 pixels, every flat area keeps its value if and only if the rounded reciprocal falls short of the exact one by at most one part in 2^25 |
| Float32.FlatLost | libyuv-master/source/row_common.cc:3291-3298 | otherwise a flat area of value 1 turns black |
| Blur.TableFitsInt32 | libyuv-master/source/row_common.cc:3279-3282 | no table entry wraps up to 8421504 pixels |
| Blur.TableLimit | libyuv-master/source/row_common.cc:3279-3282 | the tables of all images of a size are free of wrap-around if and only if the size is at most 8421504 pixels |
| MjpegRows.DeliversCrop | libyuv-master/source/mjpeg_decoder.cc:266-332 | the rows delivered are the rows wanted if and only if the crop is at least as tall as what is left of the partly skipped iMCU row |
| MjpegRows.CropCentred | libyuv-master/source/mjpeg_decoder.cc:270 | below the crop lie as many rows as above it, or one more |
| MjpegRows.NeededReaches | libyuv-master/source/mjpeg_decoder.cc:270-332 | the iMCU rows read reach from the top of the frame exactly to the last row delivered |
| MjpegRows.TwoRoundings | libyuv-master/source/mjpeg_decoder.cc:286-332 | two parts rounded up apart make one row more than together if and only if neither is a whole number of rows and what they have over fits one row |
| MjpegRows.RowTooMany | libyuv-master/source/mjpeg_decoder.cc:286-332 | a component is handed ceil(n / vs) rows of n lines delivered, or one row more exactly under that condition on the skipped iMCU row and the lines after it, for every sampling |
| MjpegRows.NeverPastFrame | libyuv-master/source/mjpeg_decoder.cc:247-334 | no crop asks for more iMCU rows than the frame has |
| MjpegRows.MJpegDecoder.DecodeImcuRow | libyuv-master/source/mjpeg_decoder.cc:552-556 | fails exactly when the input is exhausted; otherwise the next iMCU row of every component |
| MjpegRows.MJpegDecoder.SkipImcuRows | libyuv-master/source/mjpeg_decoder.cc:270-280 | stops before the iMCU row that holds the first wanted row, with the rows still to skip in it; above that row lie as many image rows as below the crop, or one fewer |
| MjpegRows.MJpegDecoder.CopyAfterSkip | libyuv-master/source/mjpeg_decoder.cc:281-301 | what is left of a partly skipped iMCU row is written for every component, from the skip rounded down on; with assertions, only if the skip is a whole number of rows in every component |
| MjpegRows.MJpegDecoder.CopyWhole | libyuv-master/source/mjpeg_decoder.cc:304-317 | a whole iMCU row extends what has been written |
| MjpegRows.MJpegDecoder.CopyLast | libyuv-master/source/mjpeg_decoder.cc:319-332 | the last partial iMCU row, each component rounded up |
| MjpegRows.MJpegDecoder.DecodeToBuffers | libyuv-master/source/mjpeg_decoder.cc:247-334 | succeeds exactly when size, start, alignment (with assertions) and available input allow; then every component has received the rows of its two parts, each rounded up, from row skip / vs on; a failed assertion means a skip the subsampling does not divide; an input that ends early has been handed over to its last row; the crop is taken from the middle of the frame |
| MjpegRows.MJpegDecoder.DecodesWhen | libyuv-master/source/mjpeg_decoder.cc:247-334 | the condition for success in lines: width, height, start, alignment with assertions, and data up to the last row delivered |
| MjpegRows.MJpegDecoder.RowsPerImcu | libyuv-master/source/mjpeg_decoder.cc:206-213 | rows of a component per iMCU row times its subsampling are the image rows of an iMCU row |
| MjpegI420.JpegCopyI420 | libyuv-master/source/convert_jpeg.cc:35-47 | the three planes receive the rows and the cursor moves behind them |
| MjpegI420.PlaneAppend | libyuv-master/source/mjpeg_decoder.cc:394-409 | chunk after chunk in the moving plane is one run of decoded rows in the fixed one |
| MjpegI420.I420Decoder.DecodeImcuRow | libyuv-master/source/mjpeg_decoder.cc:552-556 | the three buffers hold the next iMCU row of the fixed decoded planes |
| MjpegI420.I420Decoder.HandAfterSkip | libyuv-master/source/mjpeg_decoder.cc:367-391 | the rest of a partly skipped iMCU row is handed over from the middle of the buffers, with an odd skip only in builds without assertions and then with the chroma rounded up |
| MjpegI420.I420Decoder.HandRest | libyuv-master/source/mjpeg_decoder.cc:393-409 | whole iMCU rows and the last partial one are handed over, the luma and chroma cursors moving on by rows and by rows / 2 rounded up; an input that ends early has moved them by 16 and 8 for every iMCU row that it still held |
| MjpegI420.I420Decoder.DecodeToCallback | libyuv-master/source/mjpeg_decoder.cc:336-411 | whatever the outcome, the destination holds n decoded luma rows and c rows of each chroma plane and its cursors stand behind them; on success n is the number DecodeToBuffers delivers and c its number of chroma rows, with and without assertions; an input that ends early has been handed over to its last row; the crop is taken from the middle of the frame |
| MjpegI420.I420Decoder.DecodesWhen | libyuv-master/source/mjpeg_decoder.cc:336-411 | likewise, alignment meaning an even first line |
| MjpegI420.RoundedUp | libyuv-master/source/mjpeg_decoder.cc:226-228 | a component's stride is its width rounded up to a multiple of eight |
| MjpegI420.ChromaRows | libyuv-master/source/mjpeg_decoder.cc:367-409 | the chroma rows of n luma rows are n / 2 rounded up, and one more if and only if the crop begins on an odd line and n is even |
| MjpegI420.ChunksAreOneCopy | libyuv-master/source/convert_jpeg.cc:35-47 | chunked delivery leaves the same memory as one copy of the whole crop |
| MjpegCrop.CropDelivered | libyuv-master/source/mjpeg_decoder.cc:336-411 | after a decode that ran to its end the cursor wants no more rows and the destination is one copy of the crop, if and only if the first chunk fits the crop; otherwise more rows have been written than were asked for; the number of chroma rows is exact |
| MjpegCrop.MJPGToI420 | libyuv-master/source/convert_jpeg.cc:129-149 | the same for the whole conversion of a 4:2:0 frame, which succeeds exactly when the sizes agree, the crop is no taller than the frame and (with assertions) begins on an even line, and the data reaches to the last row delivered; the rows above the crop are as many as those below, or one fewer |
| MjpegCrop.FourRowsWanted | libyuv-master/source/mjpeg_decoder.cc:336-411 | a frame of 16 by 20 pixels cropped to four rows: the decode succeeds and the count of rows left ends at minus four |
| MjpegCrop.NinthChromaRow | libyuv-master/source/mjpeg_decoder.cc:367-409 | a frame of 16 by 18 pixels cropped to sixteen rows without assertions: the decode succeeds, leaves no rows, and overwrites the byte behind the eight chroma rows of the image |
| MjpegCrop.SucceedTogether | libyuv-master/source/mjpeg_decoder.cc:247-411 | on a 4:2:0 frame the strict loop of DecodeToBuffers and the non-strict loop of DecodeToCallback succeed on the same crops, in builds of either kind |
| MjpegCrop.SameRows | libyuv-master/source/mjpeg_decoder.cc:247-411 | and then deliver the same rows of every component, byte for byte |
| MjpegCrop.BothCalls | libyuv-master/source/mjpeg_decoder.cc:247-411 | both statements for the two calls themselves |
| Hash.HashConcat | libyuv-master/source/compare.cc:30-64 | hash(a ++ b, seed) = hash(b, hash(a, seed)) |
| Hash.ChunksDoNotMatter | libyuv-master/util/compare.cc:33-45 | a file hashed read by read has the hash of the file, whatever the sizes of the reads |
| Hash.SeedMatters | libyuv-master/source/compare_common.cc:62-69 | on every buffer two seeds give one hash only if they are equal |
| Hash.OneByteMatters | libyuv-master/source/compare_common.cc:62-69 | changing one byte anywhere always changes the hash |
| Hash.HashDjb2C | libyuv-master/source/compare_common.cc:62-69 | the shift-and-add loop is the fold hash * 33 + byte modulo 2^32 |
| Hash.PolySixteen | libyuv-master/source/compare_gcc.cc:274-297 | sixteen steps are a polynomial whose coefficients are the powers of 33 |
| Hash.TablesArePowers | libyuv-master/source/compare_gcc.cc:274-297 | the five tables are those powers modulo 2^32 |
| Hash.HashBlock | libyuv-master/source/compare_gcc.cc:309-338 | one pass of the vector loop hashes sixteen bytes onto lane 0, whatever the other lanes of the accumulator hold |
| Hash.HashDjb2Sse41 | libyuv-master/source/compare_gcc.cc:300-353 | equals the serial fold on every positive multiple of 16 bytes |
| Hash.HashDjb2 | libyuv-master/source/compare.cc:30-64 | 32768-byte blocks, a multiple of 16 and a C tail equal the serial fold for every count and either kernel |
| PopCounts.ByteCounted | libyuv-master/source/compare_common.cc:36-41 | the masked adds count the bits of every byte |
| PopCounts.PairsByBytes | libyuv-master/source/compare_common.cc:28-31 | the masked subtraction on a word acts on its four bytes separately, no borrow crossing |
| PopCounts.SumByBytes | libyuv-master/source/compare_common.cc:28-31 | the multiplication gathers the four byte counts in the top byte |
| PopCounts.WordCounted | libyuv-master/source/compare_common.cc:28-31 | the whole bit-parallel sequence counts the bits of every 32-bit word |
| PopCounts.TailCounted | libyuv-master/source/compare_common.cc:36-41 | the tail form, in 32-bit arithmetic, counts the bits of a byte |
| PopCounts.Entry | libyuv-master/source/compare_gcc.cc:113-115 | the table entry of every nibble is its bit count |
| Hamming.HighNibbles | libyuv-master/source/compare_gcc.cc:133-155 | shifting 16-bit lanes and masking leaves each byte its own upper half |
| Hamming.NoByteOverflows | libyuv-master/source/compare_gcc.cc:142-154 | the two byte additions never overflow |
| Hamming.HammingBlock | libyuv-master/source/compare_gcc.cc:130-156 | 32 bytes add their differing bits to double words 0 and 2 of the accumulator and nothing to 1 and 3 |
| Hamming.HammingDistanceC | libyuv-master/source/compare_common.cc:21-46 | the number of differing bits modulo 2^32, for every count |
| Hamming.HammingDistanceSsse3 | libyuv-master/source/compare_gcc.cc:117-173 | the same on every positive multiple of 32 bytes |
| Hamming.HammingDistanceNeon | libyuv-master/source/compare_neon64.cc:25-52 | what eight 16-bit accumulators keep of it |
| Hamming.LanesShareDistance | libyuv-master/source/compare_neon64.cc:33-47 | the eight lanes together count every differing bit once |
| Hamming.NeonLimit | libyuv-master/source/compare_neon64.cc:23-24 | the 16-bit kernel is right on all buffers of n blocks if and only if they are shorter than 65536 bytes |
| Hamming.ComputeHammingDistance | libyuv-master/source/compare.cc:120-181 | for every count and kernel the exact number of differing bits, at most 8 * count, zero if and only if the buffers are equal |
| Hamming.DistanceConcat | libyuv-master/source/compare.cc:166-179 | the distance of two parts adds up |
| Hamming.DistanceBound | libyuv-master/source/compare.cc:120-181 | at most eight bits a byte; zero exactly on equal buffers |
| Hamming.DistanceSymmetric | libyuv-master/source/compare.cc:120-181 | the order of the buffers does not matter |
| Hamming.Triangle | libyuv-master/source/compare.cc:120-181 | the triangle inequality |
| SquaredError.SumSquareErrorC | libyuv-master/source/compare_common.cc:48-58 | the sum of squared differences modulo 2^32 |
| SquaredError.Difference | libyuv-master/source/compare_gcc.cc:245-249 | two saturating subtractions and an or give the distance of two bytes |
| SquaredError.LanesShareError | libyuv-master/source/compare_gcc.cc:250-256 | four lanes together count every byte once |
| SquaredError.SquareBlock | libyuv-master/source/compare_gcc.cc:241-256 | one pass adds the error of sixteen bytes to the four 32-bit counters |
| SquaredError.SumSquareErrorSse2 | libyuv-master/source/compare_gcc.cc:231-272 | equals the C kernel on every positive multiple of 16 bytes |
| SquaredError.BlockFits32 | libyuv-master/source/compare.cc:188-191 | 66051 is the longest run whose error surely fits in 32 bits, so a block of 65536 does |
| SquaredError.ComputeSumSquareError | libyuv-master/source/compare.cc:184-242 | the exact sum for every count and kernel |
| SquaredError.ErrorBound | libyuv-master/source/compare.cc:184-242 | at most 65025 a byte; zero exactly on equal runs |
| SquaredError.OneMoreSample | libyuv-master/source/compare_common.cc:53-56 | each sample adds its difference times itself |
| SquaredError.ErrorProducts | libyuv-master/source/compare_common.cc:53-56 | the error is the sum of a[i] * a[i], less twice that of a[i] * b[i], plus that of b[i] * b[i] |
| SquaredError.Coalesced | libyuv-master/source/compare.cc:253-258 | rows without gaps taken as one long row have the same error |
| SquaredError.CoalescedRight | libyuv-master/source/compare.cc:253-258 | with the product of width and height kept as an int, one run has the error of the planes for all planes if and only if there are fewer than 2^31 samples |
| SquaredError.ComputeSumSquareErrorPlane | libyuv-master/source/compare.cc:244-265 | the sum over all rows, at any strides, coalesced or not, whenever the number of samples is an int; it is the sum of the squares of both planes less twice that of their products, over all samples |
| SquaredError.PlaneProducts | libyuv-master/source/compare.cc:244-265 | the same of the specification: rows of squares add up to three sums of products over the whole planes |
| SquaredError.PlaneByteAt | libyuv-master/source/compare.cc:259-263 | those sums run over every pixel of the plane, row after row |
| SquaredError.PlaneErrorBound | libyuv-master/source/compare.cc:244-265 | at most 65025 a pixel; zero if and only if the planes are equal |
| SquaredError.PlaneErrorSymmetric | libyuv-master/source/compare.cc:244-265 | the order of the planes does not matter |
| SquaredError.SumSquareErrorToPsnr | libyuv-master/source/compare.cc:268-282 | for every error and count, the maximum exactly for a zero error or one so small that (65025 * count)^5 exceeds 10^64 times its fifth power, which is when the logarithm exceeds 128; otherwise the logarithm of 65025 * count / sse, which is at least one if and only if the error is at most 65025 a sample |
| SquaredError.ClampedIf | libyuv-master/source/compare.cc:277-279 | 10 * log10(x) exceeds 128 on the quotient exactly when the integers say so |
| SquaredError.I420Psnr | libyuv-master/source/compare.cc:298-324 | the maximum if and only if all three planes are equal or the total error is clamped away; up to 97033040 samples, if and only if they are equal; otherwise ten times the logarithm of 255 * 255 times all samples over the sum of the three errors |
| SquaredError.SamplesCounted | libyuv-master/source/compare.cc:320-321 | the samples are the bytes of the three planes |
| SquaredError.PsnrLimit | libyuv-master/source/compare.cc:298-324 | the maximum means equal images for all images of a size if and only if they have at most 97033040 samples |
| SquaredError.LargeImage | libyuv-master/source/compare.cc:298-324 | two different images of 8192 by 8192 pixels that are answered like identical ones |
| Ssim.CauchySchwarz | libyuv-master/source/compare.cc:362-370 | n times the sum of squares is at least the square of the sum, for any integers |
| Ssim.CombinedMoments | libyuv-master/source/compare.cc:339-352 | the sums of a combination of two windows in terms of their five sums |
| Ssim.CovarianceBound | libyuv-master/source/compare.cc:362-370 | twice the covariance lies between minus and plus the sum of the variances, and reaches it with equal means only on equal windows |
| Ssim.SsimBound | libyuv-master/source/compare.cc:362-374 | the denominator is positive, so the branch for zero is dead; the numerator lies between minus and plus the denominator; they are equal if and only if the windows are |
| Ssim.FitsInt64 | libyuv-master/source/compare.cc:333-370 | bounds on every factor and product, all far below 2^63 |
| Ssim.Ssim8x8C | libyuv-master/source/compare.cc:329-377 | the loops over strided memory compute the similarity of the two windows and never the value for a zero denominator |
| Ssim.SimilarityValue | libyuv-master/source/compare.cc:354-375 | similarity times its denominator is its numerator, both written out in the five sums and the two constants |
| Ssim.FlatWindows | libyuv-master/source/compare.cc:354-375 | two flat windows are compared by their greys alone |
| Ssim.UsualConstants | libyuv-master/source/compare.cc:326-327 | the two constants are 64 * 64 times the squares of 0.01 * 255 and 0.03 * 255, without the fraction |
| Ssim.WindowsEqual | libyuv-master/source/compare.cc:340-352 | windows are equal exactly when all 64 pixels are |
| Ssim.CalcFrameSsim | libyuv-master/source/compare.cc:383-409 | the mean over the grid of windows, all inside the frame; within minus one and one; one if and only if the planes agree on every pixel that a window reaches; undefined exactly for at most eight pixels either way |
| Ssim.WindowsCover | libyuv-master/source/compare.cc:392-405 | all windows agree if and only if the planes agree on the first 4 * starts + 4 columns and rows |
| Ssim.LastColumnUnseen | libyuv-master/source/compare.cc:392-405 | two planes of every size with a window that differ in their whole last column, which no window reaches |
| Ssim.I420Ssim | libyuv-master/source/compare.cc:412-436 | ten times the value is eight times the mean of the luma plane plus those of the two chroma planes, each the mean over all its windows; within minus one and one, and one if and only if all three planes agree where windows reach; undefined exactly for at most sixteen pixels either way |
| JpegValidate.Memchr | libyuv-master/source/mjpeg_validate.cc:27-30 | the first occurrence in the range, if any |
| JpegValidate.ScanEOI | libyuv-master/source/mjpeg_validate.cc:21-39 | finds an end marker if and only if one lies in the range, reading nothing behind it |
| JpegValidate.TwoScans | libyuv-master/source/mjpeg_validate.cc:56-65 | the tail and the shortened rest together cover every pair of bytes after the start marker |
| JpegValidate.ValidateJpeg | libyuv-master/source/mjpeg_validate.cc:42-66 | true if and only if the buffer is there, between 64 and 0x7fffffff bytes, starts ff d8 ff and has an end marker after that |
| JpegValidate.TrailingBytes | libyuv-master/source/mjpeg_validate.cc:56-65 | anything may follow a valid image |
| JpegValidate.Truncated | libyuv-master/source/mjpeg_validate.cc:56-65 | a truncated image is valid exactly if an end marker survives |
| Edges.MadeRow | libyuv-master/source/planar_functions.cc:4049-4066 | one more computed row extends the finished part of the destination and spoils none of it |
| Edges.ClampNearest | libyuv-master/source/planar_functions.cc:4043-4066 | a clamped index is the nearest one inside the plane |
| Gauss.GaussColF32 | libyuv-master/source/row_common.cc:4075-4086 | weighted sum of five rows |
| Gauss.GaussRowF32 | libyuv-master/source/row_common.cc:4065-4072 | weighted mean of five neighbours |
| Gauss.FirstWindow | libyuv-master/source/planar_functions.cc:4043-4047 | the five pointers start on rows -2 .. 2 clamped to the plane, for every height |
| Gauss.NextWindow | libyuv-master/source/planar_functions.cc:4058-4064 | moving them keeps them on rows y - 2 .. y + 2 clamped |
| Gauss.BufferRow | libyuv-master/source/planar_functions.cc:4050-4054 | the row buffer holds the column sums with clamped ends |
| Gauss.GaussPlaneF32 | libyuv-master/source/planar_functions.cc:4005-4070 | result code, and every pixel the 5 by 5 binomial mean of its clamped neighbourhood; a negative height reads bottom up |
| Gauss.PointResponse | libyuv-master/source/row_common.cc:4065-4086 | a single point is spread by the binomial coefficients 1, 4, 6, 4, 1 each way, over 256, and reaches no further than two pixels |
| Gauss.BlurTransposed | libyuv-master/source/planar_functions.cc:3998-4004 | blurring the transposed image is transposing the blurred one, so columns-then-rows loses nothing |
| Gauss.BlurFlipped | libyuv-master/source/planar_functions.cc:4020-4025 | blurring upside down is turning the result upside down |
| Gauss.BlurBetween | libyuv-master/source/planar_functions.cc:3998-4004 | the weights add up to one: values stay within the range of the source |
| Sobel.ConvertRow | libyuv-master/source/planar_functions.cc:4191-4201 | one row in grey with its ends replicated, nothing else in the shared buffer changed |
| Sobel.FillLowest | libyuv-master/source/planar_functions.cc:4204-4210 | the third row of the ring becomes row y + 1, or the last row again, while the other two stay rows y - 1 and y |
| Sobel.SobelXRow | libyuv-master/source/row_common.cc:1320-1339 | edges across, from the cells before and after |
| Sobel.SobelYRow | libyuv-master/source/row_common.cc:1341-1359 | edges down, from the rows above and below |
| Sobel.FindEdges | libyuv-master/source/planar_functions.cc:4212-4213 | both edges of row y from the three rows in the ring |
| Sobel.ARGBSobelize | libyuv-master/source/planar_functions.cc:4073-4229 | result code, and every pixel the chosen combination of the two edges of its clamped 3 by 3 neighbourhood, for any grey conversion; a negative height reads bottom up |
| Sobel.GreyBetween | libyuv-master/source/row_common.cc:672-674 | the grey of a pixel lies between its darkest and brightest channel, so grey pixels stay as they are |
| Sobel.GreyIsLuma | libyuv-master/source/row_common.cc:672-674 | the grey is the nearest integer to its weighted sum and less than one away from 0.299 R + 0.587 G + 0.114 B |
| Sobel.ARGBSobel | libyuv-master/source/planar_functions.cc:4233-4275 | that result for the grey of full-range luma and a grey result; nothing changes on an error |
| Sobel.ARGBSobelToPlane | libyuv-master/source/planar_functions.cc:4279-4321 | likewise as a plane |
| Sobel.ARGBSobelXY | libyuv-master/source/planar_functions.cc:4326-4368 | likewise with one edge in red and one in blue |
| Sobel.EdgesTransposed | libyuv-master/source/row_common.cc:1320-1359 | the edges down the transposed image are the edges across the image, and the other way round |
| Sobel.EdgesFlipped | libyuv-master/source/planar_functions.cc:4096-4100 | upside down, both edges stay where they belong |
| Sobel.SobelTransposed | libyuv-master/source/row_common.cc:1361-1389 | the summed filter commutes with transposition |
| Sobel.KernelsSwapped | libyuv-master/source/row_common.cc:1361-1406 | exchanging the two edges exchanges red and blue in the coloured result and changes nothing in the grey ones |
| Sobel.PointResponse | libyuv-master/source/row_common.cc:1320-1359 | a single point of grey g gives edges of g, 2 * g, g (at most 255) down the columns on either side of it, the same turned for the other edge, and nothing anywhere else |
| Sobel.RampResponse | libyuv-master/source/row_common.cc:1320-1359 | on a slope the two edges are eight times its steps across and down, at most 255 |
| Sobel.KernelResults | libyuv-master/source/row_common.cc:1361-1406 | the sum of the edges as far as a byte goes, alone or as opaque grey, or with the edge across in red and the edge down in blue |

## Left out

- Blur.CumulativeSumToAverageRow: a quotient that is no byte, which only a wrapped box sum can give, is cut to its low eight bits, where the conversion from float is undefined in C; a zero area promises no byte; the arithmetic is that of binary32 without excess precision. The SSE2 kernel, which rounds and for small areas multiplies 16-bit integers, is not modelled.
- Blur.BlurRows: likewise.
- Blur.ARGBBlur: likewise.
- Gauss.GaussPlaneF32: over the reals, so float rounding is not modelled.
- Ssim.CalcFrameSsim: over the reals, so double rounding is not modelled.
- SquaredError.SumSquareErrorToPsnr: the logarithm is not computed; the model keeps what it is taken of and compares that with 10^12.8, exactly, where the source compares a rounded double with 128.
- SquaredError.I420Psnr: likewise.
- Blur.ComputeCumulativeSumRow: signed overflow, undefined in C, is modelled as wrapping.
- RotateARGB.ARGBRotate: memory holds whole pixels, so a stride that is no multiple of four bytes can only be refused, never followed; where the source would follow one (in the destination, in the copy and in the half turn) the model asks for a multiple of four.
- RotateARGB.ARGBTranspose: likewise for the destination stride.
- RotateARGB.ARGBRotate90: likewise for the destination stride.
- RotateARGB.ARGBRotate270: likewise for the destination stride.
- RotateARGB.ARGBRotate180: likewise; its strides count pixels.
- Sobel.ARGBSobelize: memory holds whole pixels and strides count them.
- MjpegRows.MJpegDecoder.DecodeToBuffers: each component is a list of rows that grows, not memory with a stride and a moving pointer; the memory level is modelled for the callback form, and MjpegCrop.SameRows ties the two together for 4:2:0 frames.
- MjpegRows.MJpegDecoder.CopyWhole: likewise.
- MjpegRows.MJpegDecoder.CopyLast: likewise.
- MjpegI420.I420Decoder.DecodeToCallback: for 4:2:0 frames with the I420 callback. The other callbacks move the same kind of cursor around other copies: the NV21 ones interleave the chroma, the 4:2:2 and 4:4:4 ones also shrink it, the 4:0:0 one fills it with a constant.
- MjpegRows.MJpegDecoder.DecodeImcuRow: libjpeg is a fixed decoded image of which some number of iMCU rows can be read; its error jumps, allocation and output buffer management are not part of this model. Sampling factors divide the largest one.
- MjpegRows.MJpegDecoder.CopyAfterSkip: likewise a list of rows for each component.
- Rows.CopyRow: the C row kernels. Their vector forms are not modelled, nor what these do with a width of zero; likewise MirrorRow, SplitUVRow and MirrorSplitUVRow.
- Hamming.HammingDistanceSsse3: memory is read at any address; the alignment that movdqa asks for is not modelled.
- Planar.CopyPlane: source and destination are two buffers, or exactly the same plane with a height that is not negative; partly overlapping planes, and a plane turned over onto itself, are not modelled. The same holds for all plane functions.
- SquaredError.ComputeSumSquareErrorPlane: the method keeps the product width * height of coalesced rows as an unbounded integer, which CoalescedRight shows to be what the int holds up to its limit; beyond it the source overflows, which is undefined in C. The same holds for CopyPlane, SplitUVPlane and NV12ToI420. Negative sizes are not modelled for the comparison functions.
- The other vector kernels (SSE2 and Fast_SSSE3 transposes, NEON, MSA and MMI transposes, AVX2, SSE4.2, NEON and MSA comparisons) and processor detection; a kernel is chosen by a parameter.
- I420Rotate and I444Rotate: the same plane rotations, three times each.
- Colour conversion, scaling, format switches and the FourCC table.
- ARGBDetect, I420Psnr's single-plane form CalcFramePsnr, and the util programs beyond their chunked hashing.
- The ndnrtc sources around libyuv.
