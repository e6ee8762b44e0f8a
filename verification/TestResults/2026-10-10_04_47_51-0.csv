TestResult.DisplayName,TestResult.Outcome,TestResult.Duration,TestResult.ResourceCount,RandomSeed
DocumentApi.HandleDocument (well-formedness),Passed,00:00:00.9507228,1242585,2
DocumentApi.OwnerUpdate (correctness),Passed,00:00:00.6744130,1128160,2
DocumentApi.OwnerDestroyRemovesExactly (correctness),Passed,00:00:00.6317901,1199967,2
DocumentApi.HandleFileKeepsValid (correctness),Passed,00:00:00.5344700,1680336,2
Accounts.HandleKeepsValid (correctness),Passed,00:00:00.4566544,753223,2
DocumentApi.HandleDocumentKeepsValid (correctness),Passed,00:00:00.3786647,459114,2
DocumentApi.Handle (well-formedness),Passed,00:00:00.3566380,353492,2
DocumentApi.OwnerUpdate (well-formedness),Passed,00:00:00.3481292,399920,2
DocumentApi.NonOwnerMutationForbidden (correctness),Passed,00:00:00.3220363,500451,2
DocumentApi.HandleFile (well-formedness),Passed,00:00:00.3073980,537550,2
Accounts.ResetRequestSilent (correctness),Passed,00:00:00.2895080,556467,2
Accounts.NewPasswordChecks (correctness),Passed,00:00:00.2873603,392424,2
DocumentApi.AnyoneMayDeleteFile (correctness),Passed,00:00:00.2855730,526788,2
Uploads.SpreadsheetAccepted (correctness),Passed,00:00:00.2855061,270404,2
Accounts.NewPasswordChecks (well-formedness),Passed,00:00:00.2775198,372440,2
DocumentApi.HandleKeepsValid (correctness),Passed,00:00:00.2718264,383289,2
Accounts.WrongOldPasswordRejected (correctness),Passed,00:00:00.2638648,351444,2
Accounts.ProfileIsOwn (correctness),Passed,00:00:00.2629782,400554,2
DocumentApi.AnyoneMayDeleteFile (well-formedness),Passed,00:00:00.2625199,346792,2
DocumentApi.HandleKeepsValid (well-formedness),Passed,00:00:00.2623684,319624,2
Uploads.SplitextLower (correctness),Passed,00:00:00.2599106,666824,2
DocumentApi.CreateStampsCreator (correctness),Passed,00:00:00.2577899,392807,2
Documents.Upsert (well-formedness),Passed,00:00:00.2557433,549140,2
DocumentApi.RetrieveOpenToAll (well-formedness),Passed,00:00:00.2523222,320220,2
Accounts.WrongOldPasswordRejected (well-formedness),Passed,00:00:00.2515148,346084,2
Accounts.ProfileIsOwn (well-formedness),Passed,00:00:00.2501736,367439,2
DocumentApi.CreateStampsCreator (well-formedness),Passed,00:00:00.2487688,350402,2
DocumentApi.NonOwnerMutationForbidden (well-formedness),Passed,00:00:00.2455081,323929,2
DocumentApi.UnknownSlugNotFound (well-formedness),Passed,00:00:00.2448342,324895,2
DocumentApi.UploadAccepted (correctness),Passed,00:00:00.2434155,466325,2
DocumentApi.CreateSucceeds (correctness),Passed,00:00:00.2368298,363680,2
Accounts.LogoutTwice (well-formedness),Passed,00:00:00.2344949,328147,2
DocumentApi.RetrieveOpenToAll (correctness),Passed,00:00:00.2320763,384337,2
Accounts.ResetRoundTrip (correctness),Passed,00:00:00.2296888,459227,2
DocumentApi.HandleDocumentKeepsValid (well-formedness),Passed,00:00:00.2292143,239882,2
Base64Url.DecodeEncode (correctness),Passed,00:00:00.2247201,791415,2
Accounts.Handle (well-formedness),Passed,00:00:00.2210734,388991,2
DocumentApi.CreateSucceeds (well-formedness),Passed,00:00:00.2189479,320324,2
Uploads.Splitext (well-formedness),Passed,00:00:00.2175641,195320,2
Accounts.LogoutIgnoresCredentials (correctness),Passed,00:00:00.2133978,349682,2
DocumentApi.UnknownSlugNotFound (correctness),Passed,00:00:00.2133074,365395,2
Accounts.ResetRoundTrip (well-formedness),Passed,00:00:00.2128341,344175,2
DocumentApi.ListShowsAll (well-formedness),Passed,00:00:00.2071534,319250,2
Accounts.AnonymousAdmitted (correctness),Passed,00:00:00.1975321,358327,2
DocumentApi.OwnerDestroyRemovesExactly (well-formedness),Passed,00:00:00.1973364,339448,2
DocumentApi.UploadStampsUploader (correctness),Passed,00:00:00.1972136,441686,2
Accounts.ResetRequestSilent (well-formedness),Passed,00:00:00.1935180,338929,2
DocumentApi.UploadAccepted (well-formedness),Passed,00:00:00.1904765,322009,2
Accounts.LogoutTwice (correctness),Passed,00:00:00.1799094,375448,2
Accounts.RequestReset (well-formedness),Passed,00:00:00.1778571,271827,2
Accounts.EmailsUnique (well-formedness),Passed,00:00:00.1776074,21211,2
DocumentApi.DocFieldErrors (well-formedness),Passed,00:00:00.1728900,55922,2
DocumentApi.DocumentFor (well-formedness),Passed,00:00:00.1695726,149663,2
Uploads.LastIndexOfLower (correctness),Passed,00:00:00.1667787,57435,2
Accounts.ConfirmResetSucceedsIff (correctness),Passed,00:00:00.1664145,204353,2
Accounts.BadTokenRejected (correctness),Passed,00:00:00.1625958,195723,2
Accounts.ConfirmReset (well-formedness),Passed,00:00:00.1591585,194379,2
DocumentApi.ListShowsAll (correctness),Passed,00:00:00.1547537,328445,2
Base64Url.DecodeDomain (correctness),Passed,00:00:00.1539757,620096,2
Base64Url.DecodeLeadingGroup (correctness),Passed,00:00:00.1535167,292355,2
DocumentApi.UploadStampsUploader (well-formedness),Passed,00:00:00.1482464,337086,2
Uploads.LowerChar (well-formedness),Passed,00:00:00.1472542,10484,2
DocumentApi.RemoveDocumentKeepsValid (correctness),Passed,00:00:00.1470686,288946,2
Uploads.ParseDocumentFilePath (correctness),Passed,00:00:00.1426689,436013,2
Documents.FindSlug (well-formedness),Passed,00:00:00.1402429,123429,2
DocumentApi.FindFile (well-formedness),Passed,00:00:00.1398361,91315,2
Accounts.ConfirmResetAsWritten (well-formedness),Passed,00:00:00.1385246,203385,2
Slugs.TriedSize (correctness),Passed,00:00:00.1346270,242508,2
DocumentApi.HandleFileKeepsValid (well-formedness),Passed,00:00:00.1319339,186266,2
Accounts.RegisterErrors (well-formedness),Passed,00:00:00.1307496,117988,2
DocumentApi.UploadErrors (well-formedness),Passed,00:00:00.1225698,149550,2
Accounts.ChangePassword (well-formedness),Passed,00:00:00.1215701,175034,2
Documents.FilesNotOf (well-formedness),Passed,00:00:00.1156501,274042,2
Http.NoNullChars (well-formedness),Passed,00:00:00.1122109,8626,2
Accounts.GarbledUidIsServerError (correctness),Passed,00:00:00.1108856,217868,2
Accounts.UnknownUserIsServerError (correctness),Passed,00:00:00.1056039,267499,2
Accounts.ShortPasswordRejected (well-formedness),Passed,00:00:00.1052795,110153,2
Permissions.StrangersUnauthorized (correctness),Passed,00:00:00.1034731,43005,2
Uploads.DotFileRejected (correctness),Passed,00:00:00.1031687,216105,2
Accounts.DuplicateEmailRejected (well-formedness),Passed,00:00:00.1021195,117745,2
Documents.SlugsOfOthers (well-formedness),Passed,00:00:00.1017951,16759,2
ResetLink.DecodeEncodeUid (correctness),Passed,00:00:00.0986092,120082,2
Accounts.RegisteredUserChecks (correctness),Passed,00:00:00.0978191,175634,2
Uploads.SizeBoundary (well-formedness),Passed,00:00:00.0973780,77259,2
Permissions.FileAccessDecision (well-formedness),Passed,00:00:00.0910024,27739,2
Accounts.ConfirmResetSucceedsIff (well-formedness),Passed,00:00:00.0884452,187820,2
Documents.RemoveAtKeepsDocsDistinct (correctness),Passed,00:00:00.0869509,65052,2
Documents.RemoveAtKeepsDocsDistinct (well-formedness),Passed,00:00:00.0847901,27396,2
Base64Url.DecodeOneByteTail (correctness),Passed,00:00:00.0837771,55228,2
ResetLink.EncodeUidInjective (correctness),Passed,00:00:00.0818754,74710,2
Accounts.BadTokenRejected (well-formedness),Passed,00:00:00.0810107,172987,2
Uploads.SizeBoundary (correctness),Passed,00:00:00.0788427,77151,2
Permissions.DocumentAccessDecision (correctness),Passed,00:00:00.0763877,100659,2
Accounts.Revoke (well-formedness),Passed,00:00:00.0743554,144449,2
Documents.UpsertKeepsSlugsDistinct (correctness),Passed,00:00:00.0740541,163812,2
Base64Url.TrailingBitsIgnored (correctness),Passed,00:00:00.0739939,104097,2
Slugs.AllocateIgnoresUnrelated (correctness),Passed,00:00:00.0733951,122940,2
Accounts.ConfirmFor (well-formedness),Passed,00:00:00.0723274,95862,2
Uploads.ValidateFile (well-formedness),Passed,00:00:00.0696544,84134,2
Documents.Save (well-formedness),Passed,00:00:00.0694143,155389,2
Slugs.AllocateIsLeastFree (correctness),Passed,00:00:00.0675895,82466,2
Documents.FindId (well-formedness),Passed,00:00:00.0670485,127714,2
Base64Url.EncodeTail (well-formedness),Passed,00:00:00.0666403,177627,2
Base64Url.Encode (well-formedness),Passed,00:00:00.0662143,172221,2
Uploads.ValidateFileCaseInsensitive (correctness),Passed,00:00:00.0654817,99840,2
Uploads.ContentTypeIgnored (correctness),Passed,00:00:00.0654021,77339,2
Base64Url.DecodeTwoByteTail (correctness),Passed,00:00:00.0652598,123912,2
Accounts.DuplicateEmailRejected (correctness),Passed,00:00:00.0632694,116775,2
Accounts.ConfirmErrors (well-formedness),Passed,00:00:00.0616896,137207,2
Accounts.RegisteredUserChecks (well-formedness),Passed,00:00:00.0599643,135494,2
Base64Url.DecodeTail (well-formedness),Passed,00:00:00.0582226,85592,2
ResetLink.DecodeUid (well-formedness),Passed,00:00:00.0578155,71831,2
Accounts.RegisterUser (well-formedness),Passed,00:00:00.0573264,120872,2
ResetLink.EncodeUid (well-formedness),Passed,00:00:00.0554962,56437,2
Accounts.ShortPasswordRejected (correctness),Passed,00:00:00.0546658,119075,2
Accounts.UpdateProfile (well-formedness),Passed,00:00:00.0538268,106723,2
Base64Url.Decode (well-formedness),Passed,00:00:00.0532952,48858,2
Uploads.SpreadsheetAccepted (well-formedness),Passed,00:00:00.0519053,70687,2
Documents.RetitledSlug (well-formedness),Passed,00:00:00.0518149,77597,2
Slugs.FirstFreeFrom (well-formedness),Passed,00:00:00.0518050,70481,2
Base64Url.DecodeTwoByteTail (well-formedness),Passed,00:00:00.0505773,41474,2
Accounts.TicketUser (well-formedness),Passed,00:00:00.0503907,87577,2
ResetLink.DigitText (well-formedness),Passed,00:00:00.0496145,57329,2
Permissions.DocumentAccessDecision (well-formedness),Passed,00:00:00.0493506,39845,2
Base64Url.TrailingBitsIgnored (well-formedness),Passed,00:00:00.0492670,47905,2
Permissions.OwnerAllowed (correctness),Passed,00:00:00.0484888,39977,2
Uploads.SplitextOfName (correctness),Passed,00:00:00.0476244,72674,2
Permissions.SafeMethodsAllowed (correctness),Passed,00:00:00.0472919,40260,2
Permissions.MutationOnlyByOwner (correctness),Passed,00:00:00.0460536,49909,2
Accounts.ChangeErrors (well-formedness),Passed,00:00:00.0456056,93746,2
Uploads.ParseDocumentFilePath (well-formedness),Passed,00:00:00.0455734,33621,2
Slugs.TriedStep (correctness),Passed,00:00:00.0447612,47043,2
Base64Url.EncodeInjective (correctness),Passed,00:00:00.0445961,52159,2
Base64Url.CharSextet (well-formedness),Passed,00:00:00.0441134,52142,2
ResetLink.DigitBytes (well-formedness),Passed,00:00:00.0431604,44677,2
Uploads.LastIndexOf (well-formedness),Passed,00:00:00.0430193,36906,2
Accounts.FirstWithEmail (well-formedness),Passed,00:00:00.0429149,90015,2
Permissions.StrangersUnauthorized (well-formedness),Passed,00:00:00.0423222,50602,2
DocumentApi.RemoveDocumentKeepsValid (well-formedness),Passed,00:00:00.0418669,55192,2
Uploads.IndexOf (well-formedness),Passed,00:00:00.0416980,34468,2
Uploads.ParseFilePath (well-formedness),Passed,00:00:00.0410071,35768,2
Permissions.CheckPermissions (well-formedness),Passed,00:00:00.0405846,39586,2
Accounts.EmailFieldOk (well-formedness),Passed,00:00:00.0405367,64984,2
Decimal.ParseNatToString (correctness),Passed,00:00:00.0403445,69168,2
Base64Url.DecodeOneByteTail (well-formedness),Passed,00:00:00.0401732,38121,2
Permissions.MutationOnlyByOwner (well-formedness),Passed,00:00:00.0399283,43032,2
Base64Url.AllUrlSafeSplit (correctness),Passed,00:00:00.0396925,42340,2
Permissions.CheckObjectPermissions (well-formedness),Passed,00:00:00.0395146,44475,2
Slugs.TriedBound (correctness),Passed,00:00:00.0368517,26272,2
DocumentApi.EmptySlugKept (correctness),Passed,00:00:00.0364198,70230,2
Documents.SavedSlug (well-formedness),Passed,00:00:00.0362380,51160,2
Slugs.Allocate (well-formedness),Passed,00:00:00.0351953,37508,2
Uploads.SplitextOfName (well-formedness),Passed,00:00:00.0343388,31973,2
Base64Url.DecodeDomain (well-formedness),Passed,00:00:00.0341619,36496,2
Uploads.Lower (well-formedness),Passed,00:00:00.0327439,39415,2
Slugs.Candidate (well-formedness),Passed,00:00:00.0320733,25208,2
Permissions.OwnerOrReadOnly (well-formedness),Passed,00:00:00.0313755,17431,2
Uploads.HasExtension (well-formedness),Passed,00:00:00.0311497,12703,2
Slugs.IsLeastFree (well-formedness),Passed,00:00:00.0308921,25504,2
Base64Url.AllUrlSafeSplit (well-formedness),Passed,00:00:00.0304461,17849,2
Uploads.LowerIdempotent (correctness),Passed,00:00:00.0302617,28207,2
Slugs.FirstFree (well-formedness),Passed,00:00:00.0301832,38703,2
Slugs.TriedBound (well-formedness),Passed,00:00:00.0300218,20639,2
Decimal.NatToString (well-formedness),Passed,00:00:00.0299793,41656,2
Documents.Valid (well-formedness),Passed,00:00:00.0294357,47343,2
Slugs.CandidateInjective (correctness),Passed,00:00:00.0293381,31776,2
Uploads.DocumentFilePath (well-formedness),Passed,00:00:00.0291983,48315,2
Base64Url.SextetChar (well-formedness),Passed,00:00:00.0285564,22485,2
Permissions.FileAccessDecision (correctness),Passed,00:00:00.0283275,36206,2
Slugs.TriedStep (well-formedness),Passed,00:00:00.0267861,24050,2
Base64Url.EncodeGroup (well-formedness),Passed,00:00:00.0266066,24100,2
DocumentApi.EmptySlugKept (well-formedness),Passed,00:00:00.0259354,54651,2
Slugs.Tried (well-formedness),Passed,00:00:00.0258434,21875,2
Accounts.RegisterPasswordOk (well-formedness),Passed,00:00:00.0252979,46089,2
Base64Url.CharSextetInverse (correctness),Passed,00:00:00.0252145,47300,2
Slugs.SubsetSize (correctness),Passed,00:00:00.0250366,24087,2
Decimal.ParseNatToString (well-formedness),Passed,00:00:00.0243576,21327,2
Decimal.AllDigits (well-formedness),Passed,00:00:00.0223213,10809,2
Documents.UpsertKeepsSlugsDistinct (well-formedness),Passed,00:00:00.0217522,49891,2
Documents.DocIds (well-formedness),Passed,00:00:00.0215118,14679,2
Accounts.Authenticate (well-formedness),Passed,00:00:00.0207378,27522,2
Documents.RemoveAtKeepsFilesDistinct (well-formedness),Passed,00:00:00.0206728,25805,2
Documents.RemoveAtMembers (well-formedness),Passed,00:00:00.0196641,16010,2
Decimal.NatToStringInjective (correctness),Passed,00:00:00.0196232,24768,2
Base64Url.GroupArithmetic (well-formedness),Passed,00:00:00.0193714,19218,2
Base64Url.GroupArithmetic (correctness),Passed,00:00:00.0183991,63997,2
Accounts.EmailTaken (well-formedness),Passed,00:00:00.0179251,19536,2
Documents.SlugsDistinct (well-formedness),Passed,00:00:00.0177897,16744,2
Documents.RemoveAtKeepsFilesDistinct (correctness),Passed,00:00:00.0176313,42170,2
Documents.RemoveAtMembers (correctness),Passed,00:00:00.0173440,27301,2
Permissions.Deny (well-formedness),Passed,00:00:00.0171656,10524,2
DocumentApi.TextFieldOk (well-formedness),Passed,00:00:00.0164141,13967,2
Decimal.DigitChar (well-formedness),Passed,00:00:00.0160796,8531,2
DocumentApi.DescriptionOk (well-formedness),Passed,00:00:00.0159374,12703,2
Decimal.ParseDigits (well-formedness),Passed,00:00:00.0155747,21007,2
Accounts.Given (well-formedness),Passed,00:00:00.0139874,14133,2
Base64Url.Byte (well-formedness),Passed,00:00:00.0134038,3671,2
Documents.RemoveAt (well-formedness),Passed,00:00:00.0131212,20654,2
Decimal.DigitValue (well-formedness),Passed,00:00:00.0130224,8142,2
Uploads.IsUuidText (well-formedness),Passed,00:00:00.0128865,12642,2
Base64Url.Byte0 (well-formedness),Passed,00:00:00.0121488,8495,2
Documents.IdsDistinct (well-formedness),Passed,00:00:00.0121384,16743,2
Documents.SlugsOf (well-formedness),Passed,00:00:00.0120497,14679,2
Base64Url.AllUrlSafe (well-formedness),Passed,00:00:00.0119294,12144,2
Base64Url.Byte1 (well-formedness),Passed,00:00:00.0114915,9650,2
Documents.SlugTakenByOther (well-formedness),Passed,00:00:00.0108782,16366,2
Uploads.MaxFileSize (well-formedness),Passed,00:00:00.0096473,4231,2
Accounts.NameOk (well-formedness),Passed,00:00:00.0091586,12702,2
Base64Url.Byte2 (well-formedness),Passed,00:00:00.0088424,6843,2
Base64Url.Sextet (well-formedness),Passed,00:00:00.0073103,3671,2
